/** The game state of sudoku.js (the global `board`, `solution` and `domains`)
    and the operations that update it in place: the legality check, the
    backtracking solver, the generator steps, clue removal, domain propagation
    and the board update made on player input. */
module Game {
  import opened Grid
  import opened Propagation
  import opened Shuffling
  import opened Removal
  import opened Generator
  import opened Input

  /** The 9x9 contents of a two-dimensional array as a value. */
  ghost function Snapshot<T>(a: array2<T>): (s: seq<seq<T>>)
    reads a
    requires a.Length0 == N && a.Length1 == N
    ensures |s| == N && forall r | 0 <= r < N :: |s[r]| == N
    ensures forall r, c | 0 <= r < N && 0 <= c < N :: s[r][c] == a[r, c]
  {
    seq(N, r requires 0 <= r < N reads a => seq(N, c requires 0 <= c < N reads a => a[r, c]))
  }

  /** copyBoard: a fresh grid with the same rows. */
  method CopyBoard(b: array2<int>) returns (c: array2<int>)
    requires b.Length0 == N && b.Length1 == N
    ensures fresh(c) && c.Length0 == N && c.Length1 == N
    ensures Snapshot(c) == Snapshot(b)
  {
    c := new int[N, N];
    for i := 0 to N
      invariant forall r, k | 0 <= r < i && 0 <= k < N :: c[r, k] == b[r, k]
    {
      for j := 0 to N
        invariant forall r, k | 0 <= r < i && 0 <= k < N :: c[r, k] == b[r, k]
        invariant forall k | 0 <= k < j :: c[i, k] == b[i, k]
      {
        c[i, j] := b[i, j];
      }
    }
    BoardExt(Snapshot(c), Snapshot(b));
  }

  class Game {
    var board: array2<int>
    var solution: array2<int>
    var domains: array2<seq<int>>

    ghost predicate Valid()
      reads this
    {
      board.Length0 == N && board.Length1 == N &&
      solution.Length0 == N && solution.Length1 == N &&
      domains.Length0 == N && domains.Length1 == N &&
      board != solution
    }

    /** The puzzle board as a value. */
    ghost function Cells(): (g: Board)
      reads this`board, board
      requires board.Length0 == N && board.Length1 == N
      ensures IsBoard(g)
    {
      Snapshot(board)
    }

    /** The candidate domains as a value. */
    ghost function Doms(): (d: DomainGrid)
      reads this`domains, domains
      requires domains.Length0 == N && domains.Length1 == N
      ensures IsDomains(d)
    {
      Snapshot(domains)
    }

    /** The initial globals: an empty board, an empty solution, and an empty
        domain for every cell. */
    constructor()
      ensures Valid()
      ensures Cells() == EmptyBoard() && Snapshot(solution) == EmptyBoard()
      ensures forall i, j | 0 <= i < N && 0 <= j < N :: domains[i, j] == []
    {
      board := new int[N, N]((i, j) => 0);
      solution := new int[N, N]((i, j) => 0);
      domains := new seq<int>[N, N]((i, j) => []);
      new;
      BoardExt(Cells(), EmptyBoard());
      BoardExt(Snapshot(solution), EmptyBoard());
    }

    /** The write board[row][col] = v. */
    method SetCell(row: int, col: int, v: int)
      requires Valid() && InRange(row, col)
      modifies board
      ensures Cells() == Assign(old(Cells()), row, col, v)
    {
      board[row, col] := v;
      BoardExt(Cells(), Assign(old(Cells()), row, col, v));
    }

    /** isSafe / isValidMove: `num` occurs nowhere in row `row`, column `col` or the
        3x3 box of (row, col), the cell itself included. */
    method IsSafe(row: int, col: int, num: int) returns (safe: bool)
      requires Valid() && InRange(row, col)
      ensures safe == Safe(Cells(), row, col, num)
    {
      for i := 0 to N
        invariant forall k | 0 <= k < i :: board[row, k] != num && board[k, col] != num
      {
        if board[row, i] == num || board[i, col] == num {
          return false;
        }
      }
      var startRow := row / 3 * 3;
      var startCol := col / 3 * 3;
      for i := startRow to startRow + 3
        invariant forall a, b | startRow <= a < i && startCol <= b < startCol + 3 :: board[a, b] != num
      {
        for j := startCol to startCol + 3
          invariant forall b | startCol <= b < j :: board[i, b] != num
        {
          if board[i, j] == num {
            return false;
          }
        }
      }
      return true;
    }

    /** solveSudoku: finds the first empty cell in row-major order and tries the
        values there (TryCell); a board without empty cells is solved. */
    method SolveSudoku() returns (solved: bool)
      requires Valid()
      modifies board
      ensures solved == Solve(old(Cells())).Some?
      ensures Cells() == SolveOrKeep(old(Cells()))
      decreases ZeroCells(Cells()), 2
    {
      ghost var g := Cells();
      for row := 0 to N
        invariant FirstEmptyFrom(g, 0, 0) == FirstEmptyFrom(g, row, 0)
      {
        for col := 0 to N
          invariant FirstEmptyFrom(g, 0, 0) == FirstEmptyFrom(g, row, col)
        {
          if board[row, col] == 0 {
            solved := TryCell(row, col);
            return;
          }
        }
      }
      return true;
    }

    /** The candidate loop of solveSudoku at the empty cell (row, col): the values
        1..9 are tried in order (TryValue) until one leads to a solution; when none
        does, the call fails. */
    method TryCell(row: int, col: int) returns (solved: bool)
      requires Valid() && InRange(row, col) && board[row, col] == 0
      modifies board
      ensures solved ==> TryValues(old(Cells()), row, col, 1) == Some(Cells())
      ensures !solved ==> TryValues(old(Cells()), row, col, 1).None? && Cells() == old(Cells())
      decreases ZeroCells(Cells()), 1
    {
      ghost var g := Cells();
      ghost var result := TryValues(g, row, col, 1);
      for num := 1 to N + 1
        invariant forall i, j | 0 <= i < N && 0 <= j < N :: board[i, j] == g[i][j]
        invariant TryValues(g, row, col, num) == result
      {
        BoardExt(Cells(), g);
        solved := TryValue(row, col, num);
        if solved {
          return;
        }
      }
      assert result.None?;
      BoardExt(Cells(), g);
      return false;
    }

    /** One turn of the candidate loop: when num is safe it is written and the
        search recurses; when that search fails the cell is reset to 0. */
    method TryValue(row: int, col: int, num: int) returns (solved: bool)
      requires Valid() && InRange(row, col) && board[row, col] == 0 && 1 <= num <= 9
      modifies board
      ensures solved ==> TryValues(old(Cells()), row, col, num) == Some(Cells())
      ensures !solved ==> (forall i, j | 0 <= i < N && 0 <= j < N :: board[i, j] == old(board[i, j])) &&
                          TryValues(old(Cells()), row, col, num) == TryValues(old(Cells()), row, col, num + 1)
      decreases ZeroCells(Cells()), 0
    {
      ghost var g := Cells();
      TryValuesStep(g, row, col, num);
      var ok := IsSafe(row, col, num);
      if !ok {
        return false;
      }
      SetCell(row, col, num);
      solved := SolveSudoku();
      if !solved {
        ghost var h := Cells();
        SetCell(row, col, 0);
        forall i, j | 0 <= i < N && 0 <= j < N ensures board[i, j] == old(board[i, j]) {
          assert board[i, j] == Assign(h, row, col, 0)[i][j];
          assert old(board[i, j]) == g[i][j];
        }
      }
    }

    /** One step of the revision loop: a value that fails the check is filtered
        out of the cell's domain d, and the cell is queued again when exactly one
        value is left. */
    method PruneValue(row: int, col: int, num: int, d: seq<int>, queue: seq<Coord>) returns (d': seq<int>, next: seq<Coord>)
      requires Valid() && InRange(row, col) && domains[row, col] == d
      modifies domains
      ensures d' == if Safe(Cells(), row, col, num) then d else Without(d, num)
      ensures domains[row, col] == d'
      ensures forall i, j | 0 <= i < N && 0 <= j < N && (i != row || j != col) :: domains[i, j] == old(domains[i, j])
      ensures next == queue + (if !Safe(Cells(), row, col, num) && |d'| == 1 then [(row, col)] else [])
      ensures Cells() == old(Cells())
    {
      d', next := d, queue;
      var ok := IsSafe(row, col, num);
      if !ok {
        d' := Without(d, num);
        domains[row, col] := d';
        if |d'| == 1 {
          next := next + [(row, col)];
        }
      }
    }

    /** The body of the ac3 work loop for the dequeued cell (row, col): the values
        of its domain as it stood when the loop began are checked in turn; each one
        that fails the legality check is filtered out, and the cell is queued again
        whenever such a removal leaves exactly one value, which happens at most once. */
    method ReviseCell(row: int, col: int, queue: seq<Coord>) returns (next: seq<Coord>)
      requires Valid() && InRange(row, col) && Increasing(domains[row, col])
      modifies domains
      ensures domains[row, col] == SafeValues(Cells(), row, col, old(domains[row, col]))
      ensures forall i, j | 0 <= i < N && 0 <= j < N && (i != row || j != col) :: domains[i, j] == old(domains[i, j])
      ensures old(domains[row, col]) == Candidates(Cells(), row, col) ==> next == queue
      ensures next == queue + (if |old(domains[row, col])| >= 2 && |domains[row, col]| <= 1 then [(row, col)] else [])
    {
      ghost var g := Cells();
      ghost var before := Doms();
      next := queue;
      var d0 := domains[row, col];
      var d := d0;
      for k := 0 to |d0|
        invariant d == SafeValues(g, row, col, d0[..k]) + d0[k..]
        invariant domains[row, col] == d
        invariant forall i, j | 0 <= i < N && 0 <= j < N && (i != row || j != col) :: domains[i, j] == before[i][j]
        invariant |d| <= |d0|
        invariant next == queue + (if |d0| >= 2 && |d| <= 1 then [(row, col)] else [])
      {
        if Safe(g, row, col, d0[k]) {
          PruneKeep(g, row, col, d0, k);
        } else {
          PruneRemove(g, row, col, d0, k);
        }
        d, next := PruneValue(row, col, d0[k], d, next);
      }
      assert d0[..|d0|] == d0 && d0[|d0|..] == [];
      if d0 == Candidates(g, row, col) {
        CandidatesStable(g, row, col);
      }
    }

    /** The first phase of ac3: every empty cell gets the domain 1..9 and is
        queued, in row-major order. */
    method InitDomains() returns (queue: seq<Coord>)
      requires Valid()
      modifies domains
      ensures forall i, j | 0 <= i < N && 0 <= j < N :: domains[i, j] == (if board[i, j] == 0 then Digits else old(domains[i, j]))
      ensures forall k | 0 <= k < |queue| :: InRange(queue[k].0, queue[k].1) && board[queue[k].0, queue[k].1] == 0
      ensures forall i, j | 0 <= i < N && 0 <= j < N && board[i, j] == 0 :: (i, j) in queue
    {
      queue := [];
      for row := 0 to N
        invariant forall i, j | 0 <= i < N && 0 <= j < N :: domains[i, j] == (if i < row && board[i, j] == 0 then Digits else old(domains[i, j]))
        invariant forall k | 0 <= k < |queue| :: InRange(queue[k].0, queue[k].1) && board[queue[k].0, queue[k].1] == 0
        invariant forall i, j | 0 <= i < row && 0 <= j < N && board[i, j] == 0 :: (i, j) in queue
      {
        label Before:
        var added := InitRow(row);
        forall i, j | 0 <= i < N && 0 <= j < N
          ensures domains[i, j] == (if i < row + 1 && board[i, j] == 0 then Digits else old(domains[i, j]))
        {
          if i != row {
            assert domains[i, j] == old@Before(domains[i, j]);
          }
        }
        ghost var before := queue;
        queue := queue + added;
        forall k | 0 <= k < |queue| ensures InRange(queue[k].0, queue[k].1) && board[queue[k].0, queue[k].1] == 0 {
          if k < |before| {
            assert queue[k] == before[k];
          } else {
            assert queue[k] == added[k - |before|];
          }
        }
        forall i, j | 0 <= i < row + 1 && 0 <= j < N && board[i, j] == 0 ensures (i, j) in queue {
          if i < row {
            var k :| 0 <= k < |before| && before[k] == (i, j);
            assert queue[k] == (i, j);
          } else {
            var k :| 0 <= k < |added| && added[k] == (i, j);
            assert queue[|before| + k] == (i, j);
          }
        }
      }
    }

    /** One row of the first phase of ac3: the empty cells of the row get the
        domain 1..9 and are returned, in column order, to be queued. */
    method InitRow(row: int) returns (added: seq<Coord>)
      requires Valid() && 0 <= row < N
      modifies domains
      ensures forall j | 0 <= j < N :: domains[row, j] == (if board[row, j] == 0 then Digits else old(domains[row, j]))
      ensures forall i, j | 0 <= i < N && 0 <= j < N && i != row :: domains[i, j] == old(domains[i, j])
      ensures forall k | 0 <= k < |added| :: added[k].0 == row && 0 <= added[k].1 < N && board[row, added[k].1] == 0
      ensures forall j | 0 <= j < N && board[row, j] == 0 :: (row, j) in added
    {
      added := [];
      for col := 0 to N
        invariant forall j | 0 <= j < N :: domains[row, j] == (if j < col && board[row, j] == 0 then Digits else old(domains[row, j]))
        invariant forall i, j | 0 <= i < N && 0 <= j < N && i != row :: domains[i, j] == old(domains[i, j])
        invariant forall k | 0 <= k < |added| :: added[k].0 == row && 0 <= added[k].1 < col && board[row, added[k].1] == 0
        invariant forall j | 0 <= j < col && board[row, j] == 0 :: (row, j) in added
      {
        if board[row, col] == 0 {
          domains[row, col] := Digits;
          added := added + [(row, col)];
          assert added[|added| - 1] == (row, col);
        }
      }
    }

    /** ac3: every empty cell gets the domain 1..9 and is queued; each dequeued
        cell is revised against the current board (ReviseCell). The domains of
        filled cells are left as they were. */
    method Ac3()
      requires Valid()
      modifies domains
      ensures Doms() == Propagated(Cells(), old(Doms()))
    {
      ghost var g := Cells();
      ghost var d := Doms();
      var queue := InitDomains();
      WorkInvariantInit(g, d, Doms(), queue);
      while |queue| > 0
        invariant WorkInvariant(g, d, Doms(), queue)
        decreases Unsettled(g, Doms()), |queue|
      {
        var row, col := queue[0].0, queue[0].1;
        ghost var q0 := queue;
        ghost var e := Doms();
        ghost var before := domains[row, col];
        queue := ReviseCell(row, col, queue[1..]);
        WorkStep(g, d, e, Doms(), q0, queue, |before| >= 2 && |domains[row, col]| <= 1);
      }
      WorkDone(g, d, Doms());
    }

    /** The row-0 loop of randomizeGrid: board[0][i] = values[i] for every i. */
    method WriteFirstRow(values: array<int>)
      requires Valid() && values.Length == N
      modifies board
      ensures Cells() == old(Cells())[0 := values[..]]
    {
      ghost var g := Cells();
      for i := 0 to N
        invariant forall c | 0 <= c < N :: board[0, c] == if c < i then values[c] else g[0][c]
        invariant forall r, c | 0 <= r < N && 0 <= c < N && r != 0 :: board[r, c] == g[r][c]
      {
        board[0, i] := values[i];
      }
      BoardExt(Cells(), g[0 := values[..]]);
    }

    /** randomizeGrid: row 0 becomes a shuffle of 1..9, then the board is solved. */
    method RandomizeGrid(picks: seq<int>)
      requires Valid() && ValidPicks(N, picks)
      modifies board
      ensures Cells() == SolveOrKeep(old(Cells())[0 := Shuffled(Digits, picks)])
    {
      var values := new int[N](i => i + 1);
      assert values[..] == Digits;
      Shuffle(values, picks);
      WriteFirstRow(values);
      var _ := SolveSudoku();
    }

    /** solution = copyBoard(board). */
    method SaveSolution()
      requires Valid()
      modifies this
      ensures Valid() && board == old(board) && domains == old(domains) && fresh(solution)
      ensures Snapshot(solution) == Cells()
    {
      solution := CopyBoard(board);
    }

    /** The SudokuGenerator constructor: randomizeGrid, one more solve, and the
        solution becomes a copy of the board. */
    method Generate(picks: seq<int>)
      requires Valid() && ValidPicks(N, picks)
      modifies this, board
      ensures Valid() && board == old(board) && domains == old(domains) && fresh(solution)
      ensures Cells() == SolveOrKeep(old(Cells())[0 := Shuffled(Digits, picks)])
      ensures Snapshot(solution) == Cells()
    {
      ghost var seeded := old(Cells())[0 := Shuffled(Digits, picks)];
      RandomizeGrid(picks);
      var _ := SolveSudoku();
      SolveOrKeepIdempotent(seeded);
      SaveSolution();
    }

    /** removeNumbers(numRemove) drawing its random cells from `picks`: a pick that
        hits a clue clears it, one that hits an empty cell is drawn again. `done`
        tells whether numRemove cells were cleared before the picks ran out. */
    method RemoveNumbers(numRemove: int, picks: seq<Coord>) returns (done: bool)
      requires Valid() && PicksInRange(picks)
      modifies board
      ensures Cells() == Removed(old(Cells()), numRemove, picks).0
      ensures done <==> Removed(old(Cells()), numRemove, picks).1 >= numRemove
    {
      ghost var g0 := Cells();
      var count := 0;
      var next := 0;
      while count < numRemove && next < |picks|
        invariant 0 <= next <= |picks| && 0 <= count
        invariant Removed(g0, numRemove, picks) ==
          (Removed(Cells(), numRemove - count, picks[next..]).0, Removed(Cells(), numRemove - count, picks[next..]).1 + count)
        decreases |picks| - next
      {
        var (row, col) := picks[next];
        ghost var g := Cells();
        assert picks[next..][0] == (row, col) && picks[next..][1..] == picks[next + 1..];
        if board[row, col] != 0 {
          board[row, col] := 0;
          BoardExt(Cells(), Assign(g, row, col, 0));
          count := count + 1;
        }
        next := next + 1;
      }
      assert numRemove - count <= 0 || picks[next..] == [];
      done := count >= numRemove;
    }

    /** handleInput for the cell (row, col): a blank entry empties the cell; a digit
        1..9 that passes the legality check is written and ac3 runs; anything else
        is flagged invalid and changes nothing. */
    method HandleInput(row: int, col: int, entry: Entry) returns (invalid: bool)
      requires Valid() && InRange(row, col)
      modifies board, domains
      ensures Cells() == AfterInput(old(Cells()), row, col, entry)
      ensures invalid <==> !entry.Blank? && !Accepted(old(Cells()), row, col, entry)
      ensures Doms() == if !entry.Blank? && Accepted(old(Cells()), row, col, entry)
                        then Propagated(Cells(), old(Doms())) else old(Doms())
    {
      ghost var g := Cells();
      match entry
      case Blank =>
        board[row, col] := 0;
        BoardExt(Cells(), Assign(g, row, col, 0));
        BoardExt(Cells(), AfterInput(g, row, col, entry));
        DomainsExt(Doms(), old(Doms()));
        return false;
      case NotANumber =>
        BoardExt(Cells(), g);
        DomainsExt(Doms(), old(Doms()));
        return true;
      case Number(value) =>
        var ok := false;
        if 1 <= value <= 9 {
          ok := IsSafe(row, col, value);
        }
        if ok {
          board[row, col] := value;
          BoardExt(Cells(), Assign(g, row, col, value));
          Ac3();
          return false;
        }
        BoardExt(Cells(), g);
        DomainsExt(Doms(), old(Doms()));
        return true;
    }

    /** startNewGame: a fresh empty board, a new generator, and clue removal for
        levels 1, 2 and 3. The candidate domains are kept from before. */
    method StartNewGame(level: int, shufflePicks: seq<int>, removePicks: seq<Coord>)
      requires Valid() && ValidPicks(N, shufflePicks) && PicksInRange(removePicks)
      modifies this
      ensures Valid() && fresh(board) && fresh(solution) && domains == old(domains) && Doms() == old(Doms())
      ensures Snapshot(solution) == Generated(shufflePicks)
      ensures Cells() == Puzzle(shufflePicks, level, removePicks)
    {
      board := new int[N, N]((i, j) => 0);
      BoardExt(Cells(), EmptyBoard());
      Generate(shufflePicks);
      match RemovalCount(level)
      case None =>
      case Some(k) =>
        var _ := RemoveNumbers(k, removePicks);
    }
  }
}