/** The backtracking solver: `is_valid` and `solve_sudoku` of
    scripts/solver.py, working in place on a 9×9 array. */
module Solver {
  import opened Grid

  /** Whether num may be written at (row, col): it may not occur in the row,
      in the column, or in the 3×3 block of that cell. The row and column
      tests are membership tests over the whole row and column; the block is
      scanned cell by cell and the scan stops at the first match. */
  method IsValid(board: array2<int>, row: int, col: int, num: int) returns (ok: bool)
    requires board.Length0 == 9 && board.Length1 == 9 && InBounds(row, col)
    ensures ok <==> CanPlace(Cells(board), row, col, num)
  {
    ghost var g := Cells(board);
    if exists c | 0 <= c < 9 :: board[row, c] == num {
      return false;
    }
    if exists r | 0 <= r < 9 :: board[r, col] == num {
      return false;
    }
    var startRow, startCol := 3 * (row / 3), 3 * (col / 3);
    for i := startRow to startRow + 3
      invariant forall r, c :: startRow <= r < i && startCol <= c < startCol + 3 ==> g[r][c] != num
    {
      for j := startCol to startCol + 3
        invariant forall r, c :: startRow <= r < i && startCol <= c < startCol + 3 ==> g[r][c] != num
        invariant forall c :: startCol <= c < j ==> g[i][c] != num
      {
        if board[i, j] == num {
          return false;
        }
      }
    }
    return true;
  }

  /** Digit v cannot go at (r, c) in any solution keeping g's clues: either
      `is_valid` rejects it, or the board with v placed has no solution. */
  ghost predicate Dead(g: Board, r: int, c: int, v: int)
    requires IsBoard(g) && InBounds(r, c)
  {
    !CanPlace(g, r, c, v) || !Solvable(Place(g, r, c, v))
  }

  /** The digit a solution keeping g's clues holds at an empty cell is never
      dead: `is_valid` accepts it, and that solution keeps the clues of the
      board with the digit placed. */
  lemma SolutionDigitAlive(g: Board, s: Board, r: int, c: int)
    requires IsBoard(g) && InBounds(r, c) && g[r][c] == 0
    requires IsSolution(s) && Extends(s, g)
    ensures !Dead(g, r, c, s[r][c])
  {
    SolutionDigitAccepted(g, s, r, c);
    ExtendsPlace(s, g, r, c, s[r][c]);
  }

  /** When every digit is dead for an empty cell, no solution keeps g's clues:
      this is why returning false after the last candidate is sound. */
  lemma NoCandidateNoSolution(g: Board, r: int, c: int)
    requires IsBoard(g) && InBounds(r, c) && g[r][c] == 0
    requires forall v :: 1 <= v <= 9 ==> Dead(g, r, c, v)
    ensures !Solvable(g)
  {
    forall s | IsSolution(s) && Extends(s, g)
      ensures !Dead(g, r, c, s[r][c])
    {
      SolutionDigitAlive(g, s, r, c);
    }
  }

  /** (r, c) is the first empty cell of g in row-major order. */
  ghost predicate FirstEmpty(g: Board, r: int, c: int)
    requires IsBoard(g) && InBounds(r, c)
  {
    g[r][c] == 0 &&
    forall i, j :: InBounds(i, j) && (i < r || (i == r && j < c)) ==> g[i][j] != 0
  }

  /** What a successful search on g leaves on the board: t fills every
      cell, keeps every clue of g, writes only the digits 1..9 into g's empty
      cells, keeps g consistent when it was, is a solution when g is a
      well-formed puzzle, and comes first in row-major order among all
      solutions that keep g's clues. */
  ghost predicate Found(g: Board, t: Board)
    requires IsBoard(g) && IsBoard(t)
  {
    Filled(t) && Extends(t, g) && FillsEmpty(t, g) &&
    (Consistent(g) ==> Consistent(t)) &&
    (Digits(g) && Consistent(g) ==> IsSolution(t)) &&
    forall s :: IsSolution(s) && Extends(s, g) ==> LexLeq(t, s)
  }

  /** What one level of the search concludes when the recursive call on g
      with num placed at its first empty cell succeeds with t, every smaller
      digit being dead: t is what the search promises for g itself. */
  lemma SuccessAfterPlacing(g: Board, t: Board, r: int, c: int, num: int)
    requires IsBoard(g) && IsBoard(t) && InBounds(r, c) && FirstEmpty(g, r, c) && 1 <= num <= 9
    requires CanPlace(g, r, c, num)
    requires forall v :: 1 <= v < num ==> Dead(g, r, c, v)
    requires Found(Place(g, r, c, num), t)
    ensures Found(g, t)
  {
    if Consistent(g) {
      PlaceKeepsConsistent(g, r, c, num);
    }
    forall s | IsSolution(s) && Extends(s, g)
      ensures LexLeq(t, s)
    {
      SolutionDigitAlive(g, s, r, c);
      ExtendsPlace(s, g, r, c, num);
      if s[r][c] != num {
        assert t[r][c] < s[r][c] && AgreeBefore(t, s, r, c);
      }
    }
  }

  /** On a well-formed puzzle a search result is a solution, so the puzzle
      is solvable. */
  lemma FoundSolves(g: Board, t: Board)
    requires IsBoard(g) && IsBoard(t) && Digits(g) && Consistent(g) && Found(g, t)
    ensures IsSolution(t) && Solvable(g)
  {
  }

  /** A filled board is its own search result. */
  lemma FilledIsFound(g: Board)
    requires IsBoard(g) && Filled(g)
    ensures Found(g, g)
    ensures Digits(g) && Consistent(g) ==> Solvable(g)
  {
    if Digits(g) && Consistent(g) {
      ConsistentCompletionSolves(g, g);
    }
    forall s | IsSolution(s) && Extends(s, g)
      ensures LexLeq(g, s)
    {
      CellwiseEqual(g, s);
      assert AgreeBefore(g, s, 9, 0);
    }
  }

  /** A completion of a board whose clues are digits is a solution when it
      is consistent, and it witnesses that the board is solvable. */
  lemma ConsistentCompletionSolves(t: Board, g: Board)
    requires IsBoard(t) && IsBoard(g) && Digits(g)
    requires Extends(t, g) && FillsEmpty(t, g) && Consistent(t)
    ensures IsSolution(t) && Solvable(g)
  {
  }

  /** Backtracking search. The first empty cell in row-major order receives
      the digits 1..9 in ascending order (see TryDigits); a board without
      empty cells is solved already. One cell fewer is empty at every level,
      so the recursion is at most 81 deep. */
  method Solve(board: array2<int>) returns (ok: bool)
    requires board.Length0 == 9 && board.Length1 == 9
    modifies board
    // failure: the board is as it was, and no solution keeps its clues
    ensures !ok ==> Cells(board) == old(Cells(board)) && !Solvable(old(Cells(board)))
    // success: the board holds the first completion in row-major order
    ensures ok ==> Found(old(Cells(board)), Cells(board))
    // on a well-formed puzzle: success exactly when a solution exists
    ensures Digits(old(Cells(board))) && Consistent(old(Cells(board))) ==> (ok <==> Solvable(old(Cells(board))))
    // a board without empty cells is returned at once, untouched
    ensures Filled(old(Cells(board))) ==> ok && Cells(board) == old(Cells(board))
    decreases ZeroCount(Cells(board)), 2
  {
    ghost var g0 := Cells(board);
    for row := 0 to 9
      invariant Cells(board) == g0
      invariant forall i, j :: 0 <= i < row && 0 <= j < 9 ==> g0[i][j] != 0
    {
      for col := 0 to 9
        invariant Cells(board) == g0
        invariant forall i, j :: InBounds(i, j) && (i < row || (i == row && j < col)) ==> g0[i][j] != 0
      {
        if board[row, col] == 0 {
          ok := TryDigits(board, row, col);
          if ok && Digits(g0) && Consistent(g0) {
            FoundSolves(g0, Cells(board));
          }
          return;
        }
      }
    }
    FilledIsFound(g0);
    return true;
  }

  /** The loop of the search over the candidates for the first empty cell
      (row, col): the digits 1..9 are tried in ascending order, the first one
      that leads to a solution ends the search, and when none does the
      search fails. */
  method TryDigits(board: array2<int>, row: int, col: int) returns (ok: bool)
    requires board.Length0 == 9 && board.Length1 == 9 && InBounds(row, col)
    requires FirstEmpty(Cells(board), row, col)
    modifies board
    ensures !ok ==> Cells(board) == old(Cells(board)) && !Solvable(old(Cells(board)))
    ensures ok ==> Found(old(Cells(board)), Cells(board))
    decreases ZeroCount(Cells(board)), 1
  {
    ghost var g0 := Cells(board);
    for num := 1 to 10
      invariant Cells(board) == g0
      invariant forall v :: 1 <= v < num ==> Dead(g0, row, col, v)
    {
      ok := TryDigit(board, row, col, num);
      if ok {
        return;
      }
    }
    NoCandidateNoSolution(g0, row, col);
    return false;
  }

  /** One candidate num for the first empty cell (row, col), every smaller
      digit being dead: when `is_valid` accepts it, num is written and the
      rest of the board is solved recursively; when that fails the cell is
      reset to 0 and num is dead as well. */
  method TryDigit(board: array2<int>, row: int, col: int, num: int) returns (ok: bool)
    requires board.Length0 == 9 && board.Length1 == 9 && InBounds(row, col) && 1 <= num <= 9
    requires FirstEmpty(Cells(board), row, col)
    requires forall v :: 1 <= v < num ==> Dead(Cells(board), row, col, v)
    modifies board
    ensures !ok ==> Cells(board) == old(Cells(board)) && Dead(old(Cells(board)), row, col, num)
    ensures ok ==> Found(old(Cells(board)), Cells(board))
    decreases ZeroCount(Cells(board)), 0
  {
    ghost var g0 := Cells(board);
    var valid := IsValid(board, row, col, num);
    if !valid {
      return false;
    }
    Store(board, row, col, num);
    ZeroCountPlace(g0, row, col, num);
    ok := Solve(board);
    if ok {
      SuccessAfterPlacing(g0, Cells(board), row, col, num);
      return;
    }
    Store(board, row, col, 0);
    PlaceRestores(g0, row, col, num);
  }
}
