/** Value-level view of the puzzle generator: the difficulty table, the seeded
    first row, the completed grid and the puzzle left after clue removal. */
module Generator {
  import opened Grid
  import opened Shuffling
  import opened Removal

  /** Cells removed for the easy, medium and hard levels. */
  const EASY := 46
  const MEDIUM := 51
  const HARD := 56

  /** How many cells startNewGame removes for a difficulty level: levels 1, 2, 3
      map to EASY, MEDIUM, HARD; any other level removes none. */
  function RemovalCount(level: int): (n: Option<int>)
    ensures n.Some? <==> 1 <= level <= 3
    ensures n.Some? ==> EASY <= n.value <= HARD < N * N
  {
    if level == 1 then Some(EASY)
    else if level == 2 then Some(MEDIUM)
    else if level == 3 then Some(HARD)
    else None
  }

  /** A harder level removes more cells. */
  lemma HarderLevelsRemoveMore(a: int, b: int)
    requires RemovalCount(a).Some? && RemovalCount(b).Some? && a < b
    ensures RemovalCount(a).value < RemovalCount(b).value
  {
  }

  ghost function EmptyBoard(): (g: Board)
    ensures IsBoard(g) && forall i, j | 0 <= i < N && 0 <= j < N :: g[i][j] == 0
  {
    seq(N, _ => seq(N, _ => 0))
  }

  /** The empty board with the shuffled digits written into row 0 (randomizeGrid
      before it calls the solver). */
  ghost function Seed(picks: seq<int>): (g: Board)
    requires ValidPicks(N, picks)
    ensures IsBoard(g)
  {
    ShuffledDigits(picks);
    EmptyBoard()[0 := Shuffled(Digits, picks)]
  }

  /** The seed holds the digits 1..9 once each in row 0 and nothing else, so it
      breaks no rule. */
  lemma SeedIsConsistent(picks: seq<int>)
    requires ValidPicks(N, picks)
    ensures WellFormed(Seed(picks)) && Consistent(Seed(picks))
    ensures forall i, j | 0 <= i < N && 0 <= j < N :: Seed(picks)[i][j] == 0 <==> i != 0
  {
    var g := Seed(picks);
    var row := Shuffled(Digits, picks);
    ShuffledDigits(picks);
    forall j | 0 <= j < N ensures 1 <= g[0][j] <= 9 {
      assert row[j] in row;
    }
    forall r, c, i, j | 0 <= r < N && 0 <= c < N && 0 <= i < N && 0 <= j < N && (i != r || j != c) && Sees(r, c, i, j) && g[r][c] != 0
      ensures g[i][j] != g[r][c]
    {
      if i == 0 {
        assert r == 0 && j != c;
        if j < c {
          assert row[j] != row[c];
        } else {
          assert row[c] != row[j];
        }
      }
    }
  }

  /** The board the SudokuGenerator constructor leaves: randomizeGrid solves the
      seed, and the constructor's second solve changes nothing more. */
  ghost function Generated(picks: seq<int>): (g: Board)
    requires ValidPicks(N, picks)
    ensures IsBoard(g)
  {
    SolveOrKeep(Seed(picks))
  }

  /** Column of the first row that cell (i, j) copies in Completion: row i is the
      first row rotated left by 3 * (i % 3) + i / 3. */
  ghost function Shift(i: int, j: int): int {
    (3 * (i % 3) + i / 3 + j) % 9
  }

  /** Two different cells that see each other copy different columns. */
  lemma ShiftsDiffer(r: int, c: int, i: int, j: int)
    requires InRange(r, c) && InRange(i, j) && (i != r || j != c) && Sees(r, c, i, j)
    ensures Shift(i, j) != Shift(r, c)
  {
    var x := 3 * (i % 3) + i / 3 + j;
    var y := 3 * (r % 3) + r / 3 + c;
    SameResidue(x, y);
    if i != r && j != c {
      assert i / 3 == r / 3 && j / 3 == c / 3;
      assert i % 3 != r % 3;
    } else if i != r {
      assert i / 3 != r / 3 || i % 3 != r % 3;
    }
  }

  /** Two numbers below 18 with the same remainder modulo 9 are equal or 9 apart. */
  lemma SameResidue(x: int, y: int)
    requires 0 <= x < 18 && 0 <= y < 18
    ensures x % 9 == y % 9 ==> x == y || x == y + 9 || y == x + 9
  {
    assert x % 9 == (if x < 9 then x else x - 9);
    assert y % 9 == (if y < 9 then y else y - 9);
  }

  /** A complete grid built from a first row of nine distinct digits: every row is
      a rotation of it, arranged so that no row, column or box repeats a digit. */
  ghost function Completion(row: seq<int>): (g: Board)
    requires |row| == N
    ensures IsBoard(g)
  {
    seq(N, i => seq(N, j => row[Shift(i, j)]))
  }

  /** The seed can be completed: the rotations of the shuffled row form a
      complete valid Sudoku that keeps row 0. */
  lemma CompletionIsSolution(picks: seq<int>)
    requires ValidPicks(N, picks)
    ensures IsSolved(Completion(Shuffled(Digits, picks)))
    ensures Extends(Completion(Shuffled(Digits, picks)), Seed(picks))
  {
    var row := Shuffled(Digits, picks);
    var s := Completion(row);
    ShuffledDigits(picks);
    forall i, j | 0 <= i < N && 0 <= j < N ensures 1 <= s[i][j] <= 9 {
      assert row[Shift(i, j)] in row;
    }
    forall r, c, i, j {:trigger Sees(r, c, i, j)} | 0 <= r < N && 0 <= c < N && 0 <= i < N && 0 <= j < N && (i != r || j != c) && Sees(r, c, i, j) && s[r][c] != 0
      ensures s[i][j] != s[r][c]
    {
      ShiftsDiffer(r, c, i, j);
      var a, b := Shift(i, j), Shift(r, c);
      if a < b {
        assert row[a] != row[b];
      } else {
        assert row[b] != row[a];
      }
    }
    forall j | 0 <= j < N ensures s[0][j] == Seed(picks)[0][j] {
      assert Shift(0, j) == j;
    }
  }

  /** The search from the seed succeeds, so the generated grid is a complete valid
      Sudoku whose first row is the shuffled digits. */
  lemma GeneratedIsSolution(picks: seq<int>)
    requires ValidPicks(N, picks)
    ensures Solve(Seed(picks)).Some?
    ensures IsSolved(Generated(picks)) && Generated(picks)[0] == Shuffled(Digits, picks)
  {
    var g := Seed(picks);
    SeedIsConsistent(picks);
    CompletionIsSolution(picks);
    SolveFindsSolution(g, Completion(Shuffled(Digits, picks)));
    SolveYieldsSolution(g);
    var s := Solve(g).value;
    assert Extends(s, g);
    forall j | 0 <= j < N ensures s[0][j] == g[0][j] {
      assert g[0][j] != 0;
    }
  }

  /** The puzzle startNewGame shows: the generated grid with the cells of the
      level removed. */
  ghost function Puzzle(picks: seq<int>, level: int, removePicks: seq<Coord>): (g: Board)
    requires ValidPicks(N, picks) && PicksInRange(removePicks)
    ensures IsBoard(g)
  {
    match RemovalCount(level)
    case None => Generated(picks)
    case Some(k) => Removed(Generated(picks), k, removePicks).0
  }

  /** Every clue of the puzzle is the generated grid's value there, so the grid
      completes the puzzle, the puzzle breaks no rule and the search solves it.
      When removal completed, exactly the level's count of cells is empty. */
  lemma PuzzleMatchesSolution(picks: seq<int>, level: int, removePicks: seq<Coord>)
    requires ValidPicks(N, picks) && PicksInRange(removePicks)
    ensures var (p, s) := (Puzzle(picks, level, removePicks), Generated(picks));
      Extends(s, p) && Consistent(p) && WellFormed(p) && Solve(p).Some?
    ensures (RemovalCount(level).Some? &&
             Removed(Generated(picks), RemovalCount(level).value, removePicks).1 >= RemovalCount(level).value) ==>
      |ZeroCells(Puzzle(picks, level, removePicks))| == RemovalCount(level).value
  {
    var s := Generated(picks);
    var p := Puzzle(picks, level, removePicks);
    GeneratedIsSolution(picks);
    match RemovalCount(level)
    case None =>
      FullBoardIsSolved(p);
    case Some(k) =>
      RemovedClearsExactly(s, k, removePicks);
      ClearingKeepsConsistent(s, p);
      assert ZeroCells(p) == ClearedCells(s, p);
      assert Extends(s, p);
      SolveFindsSolution(p, s);
  }
}
