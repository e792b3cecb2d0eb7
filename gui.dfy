/** The editor state of scripts/gui.py without its rendering: the board
    being edited, the cells the user typed in, the selected cell and the
    status line. Each method is one transition the event loop triggers. */
module Gui {
  import opened Grid
  import Solver

  datatype Option<T> = None | Some(value: T)

  // Window geometry: nine 60-pixel rows of cells above a 60-pixel footer.
  const Width := 540
  const Height := 600
  const CellSize := Width / 9
  const FooterHeight := 60

  datatype Direction = Up | Down | Left | Right

  /** The status line; the event loop also writes "Cleared" and "Reset
      calculated values", which are not part of this model. */
  datatype Status = Ready | Solved | NoSolution

  /** The puzzle the editor starts with. */
  const Example: Board := [
    [5, 3, 0, 0, 7, 0, 0, 0, 0],
    [6, 0, 0, 1, 9, 5, 0, 0, 0],
    [0, 9, 8, 0, 0, 0, 0, 6, 0],
    [8, 0, 0, 0, 6, 0, 0, 0, 3],
    [4, 0, 0, 8, 0, 3, 0, 0, 1],
    [7, 0, 0, 0, 2, 0, 0, 0, 6],
    [0, 6, 0, 0, 0, 0, 2, 8, 0],
    [0, 0, 0, 4, 1, 9, 0, 0, 5],
    [0, 0, 0, 0, 8, 0, 0, 7, 9]
  ]

  // ---------------------------------------------------------------------
  // Selection

  /** The selection sits on the edge that dir moves towards. */
  predicate AtEdge(cell: (int, int), dir: Direction) {
    match dir
    case Up => cell.0 == 0
    case Down => cell.0 == 8
    case Left => cell.1 == 0
    case Right => cell.1 == 8
  }

  function RowStep(dir: Direction): int {
    match dir
    case Up => -1
    case Down => 1
    case _ => 0
  }

  function ColumnStep(dir: Direction): int {
    match dir
    case Left => -1
    case Right => 1
    case _ => 0
  }

  /** The selection after an arrow key: one step towards dir, unless that
      would leave the board. */
  function Moved(cell: (int, int), dir: Direction): (next: (int, int))
    requires InBounds(cell.0, cell.1)
    ensures InBounds(next.0, next.1)
    ensures next == cell <==> AtEdge(cell, dir)
    ensures next != cell ==> next == (cell.0 + RowStep(dir), cell.1 + ColumnStep(dir))
  {
    var (row, col) := cell;
    if dir == Up && row > 0 then (row - 1, col)
    else if dir == Down && row < 8 then (row + 1, col)
    else if dir == Left && col > 0 then (row, col - 1)
    else if dir == Right && col < 8 then (row, col + 1)
    else (row, col)
  }

  /** An arrow key changes exactly one coordinate, by exactly one. */
  lemma MovedChangesOneCoordinate(cell: (int, int), dir: Direction)
    requires InBounds(cell.0, cell.1) && !AtEdge(cell, dir)
    ensures var next := Moved(cell, dir);
      (next.0 == cell.0 && (next.1 - cell.1 == 1 || cell.1 - next.1 == 1)) ||
      (next.1 == cell.1 && (next.0 - cell.0 == 1 || cell.0 - next.0 == 1))
  {
  }

  /** The cell under a mouse click at pixel (x, y) of the window, or None for
      a click on the footer. */
  function CellAt(x: int, y: int): (cell: Option<(int, int)>)
    requires 0 <= x < Width && 0 <= y < Height
    ensures cell.Some? <==> y < Height - FooterHeight
    ensures cell.Some? ==> InBounds(cell.value.0, cell.value.1)
    ensures cell.Some? ==> CellSize * cell.value.0 <= y < CellSize * (cell.value.0 + 1)
    ensures cell.Some? ==> CellSize * cell.value.1 <= x < CellSize * (cell.value.1 + 1)
  {
    if y < Height - FooterHeight then Some((y / CellSize, x / CellSize)) else None
  }

  // ---------------------------------------------------------------------
  // Boards the editor produces

  /** The board with every cell the user did not type in cleared. */
  function KeepUserCells(g: Board, user: set<(int, int)>): (h: Board)
    requires IsBoard(g)
    ensures IsBoard(h)
    ensures forall r, c :: InBounds(r, c) && (r, c) in user ==> h[r][c] == g[r][c]
    ensures forall r, c :: InBounds(r, c) && (r, c) !in user ==> h[r][c] == 0
  {
    seq(9, r requires 0 <= r < 9 => seq(9, c requires 0 <= c < 9 => if (r, c) in user then g[r][c] else 0))
  }

  /** The board after a successful solve: the user's cells as they were,
      every other cell from the solved copy. */
  function Merge(g: Board, solved: Board, user: set<(int, int)>): (h: Board)
    requires IsBoard(g) && IsBoard(solved)
    ensures IsBoard(h)
    ensures forall r, c :: InBounds(r, c) && (r, c) in user ==> h[r][c] == g[r][c]
    ensures forall r, c :: InBounds(r, c) && (r, c) !in user ==> h[r][c] == solved[r][c]
  {
    seq(9, r requires 0 <= r < 9 => seq(9, c requires 0 <= c < 9 => if (r, c) in user then g[r][c] else solved[r][c]))
  }

  /** Every cell the user typed in is on the board and holds a digit. */
  ghost predicate UserCellsFilled(g: Board, user: set<(int, int)>)
    requires IsBoard(g)
  {
    forall cell :: cell in user ==> InBounds(cell.0, cell.1) && g[cell.0][cell.1] != 0
  }

  /** Since the user's cells are clues of g, merging a board that keeps g's
      clues gives that board itself: the merge never overrides the solver. */
  lemma MergeOfExtension(g: Board, solved: Board, user: set<(int, int)>)
    requires IsBoard(g) && IsBoard(solved) && UserCellsFilled(g, user) && Extends(solved, g)
    ensures Merge(g, solved, user) == solved
  {
    CellwiseEqual(Merge(g, solved, user), solved);
  }

  /** A board that keeps g's clues keeps every cell the user typed in. */
  lemma ExtensionKeepsUserCells(g: Board, t: Board, user: set<(int, int)>)
    requires IsBoard(g) && IsBoard(t) && UserCellsFilled(g, user) && Extends(t, g)
    ensures UserCellsFilled(t, user)
    ensures forall cell :: cell in user ==> t[cell.0][cell.1] == g[cell.0][cell.1]
  {
  }

  /** Pressing R after a solve gives the same board as pressing R before it:
      the merge only writes cells that R clears. */
  lemma ResetUndoesMerge(g: Board, solved: Board, user: set<(int, int)>)
    requires IsBoard(g) && IsBoard(solved)
    ensures KeepUserCells(Merge(g, solved, user), user) == KeepUserCells(g, user)
  {
    CellwiseEqual(KeepUserCells(Merge(g, solved, user), user), KeepUserCells(g, user));
  }

  /** Clearing the calculated cells twice is clearing them once. */
  lemma KeepUserCellsIdempotent(g: Board, user: set<(int, int)>)
    requires IsBoard(g)
    ensures KeepUserCells(KeepUserCells(g, user), user) == KeepUserCells(g, user)
  {
    CellwiseEqual(KeepUserCells(KeepUserCells(g, user), user), KeepUserCells(g, user));
  }

  /** The puzzle the editor starts with is not typed in by the user, so R on
      a fresh editor clears its clues as well. */
  lemma ResetClearsInitialPuzzle()
    ensures KeepUserCells(Example, {}) == Zeros
  {
    CellwiseEqual(KeepUserCells(Example, {}), Zeros);
  }

  /** The value of an ASCII digit character. */
  function DigitOf(ch: char): (d: int)
    requires '0' <= ch <= '9'
    ensures 0 <= d <= 9 && ch == ('0' as int + d) as char
  {
    ch as int - '0' as int
  }

  /** `value` is what the key handler's digit test and integer conversion
      give for ch: the digit's value when ch is a decimal digit, None when
      it is not one. Which characters beyond ASCII are decimal digits is
      Unicode's table, which the model takes from the caller; for ASCII
      characters the value is fixed here. */
  predicate DecimalValue(ch: char, value: Option<int>) {
    (value.Some? ==> 0 <= value.value <= 9) &&
    ('0' <= ch <= '9' ==> value == Some(DigitOf(ch))) &&
    (ch as int < 128 && !('0' <= ch <= '9') ==> value.None?)
  }

  /** What a key that is not an arrow does to the selected cell. */
  datatype Edit = Write(digit: int) | Erase | Ignore

  /** The key handler's branch as the source writes it: a decimal digit
      other than the character '0' is written into the cell, and backspace
      or the character '0' erases it. A character the digit test accepts
      but the integer conversion rejects, such as a superscript digit,
      makes the source raise; it reaches this function with no decimal
      value and is ignored here, as it is by KeyEdit. */
  function KeyEditAsWritten(ch: char, backspace: bool, value: Option<int>): (e: Edit)
    ensures e.Write? <==> value.Some? && ch != '0'
    ensures e.Write? ==> value == Some(e.digit)
    ensures e.Erase? <==> !e.Write? && (backspace || ch == '0')
  {
    if value.Some? && ch != '0' then Write(value.value)
    else if backspace || ch == '0' then Erase
    else Ignore
  }

  /** The key handling the editor's invariant needs: a non-zero digit is
      written, backspace or any zero digit erases, any other key is
      ignored. */
  function KeyEdit(ch: char, backspace: bool, value: Option<int>): (e: Edit)
    requires DecimalValue(ch, value)
    ensures e.Write? <==> (value.Some? && value.value != 0)
    ensures e.Write? ==> 1 <= e.digit <= 9 && value == Some(e.digit)
    ensures e.Erase? <==> (!e.Write? && (backspace || value == Some(0)))
  {
    if value.Some? && value.value != 0 then Write(value.value)
    else if backspace || value == Some(0) then Erase
    else Ignore
  }

  /** The branch as written and the intended handling differ exactly on the
      zero digits other than the character '0' (such as U+0660 or U+FF10). */
  lemma KeyEditAsWrittenDiffers(ch: char, backspace: bool, value: Option<int>)
    requires DecimalValue(ch, value)
    ensures KeyEditAsWritten(ch, backspace, value) == KeyEdit(ch, backspace, value) <==>
      !(value == Some(0) && ch != '0')
  {
  }

  /** On ASCII keys the branch as written is the intended handling. */
  lemma KeyEditAgreesOnAscii(ch: char, backspace: bool, value: Option<int>)
    requires ch as int < 128 && DecimalValue(ch, value)
    ensures KeyEditAsWritten(ch, backspace, value) == KeyEdit(ch, backspace, value)
  {
    KeyEditAsWrittenDiffers(ch, backspace, value);
  }

  /** As written, the Arabic-Indic digit zero writes 0 into the selected
      cell and marks it as typed, so a typed cell is empty afterwards. */
  lemma UnicodeZeroAsWrittenBreaksInvariant(g: Board, r: int, c: int, user: set<(int, int)>)
    requires IsBoard(g) && InBounds(r, c)
    ensures DecimalValue('\U{0660}', Some(0))
    ensures KeyEditAsWritten('\U{0660}', false, Some(0)) == Write(0)
    ensures !UserCellsFilled(Place(g, r, c, 0), user + {(r, c)})
  {
    assert (r, c) in user + {(r, c)};
  }


  // ---------------------------------------------------------------------
  // The editor

  class SudokuGUI {
    var board: array2<int>
    var userInputs: set<(int, int)>
    var selected: (int, int)
    var status: Status

    /** The board is 9×9, the selection is on it, and every cell the user
        typed in holds a digit. */
    ghost predicate Valid()
      reads this`board, this`selected, this`userInputs, board
    {
      board.Length0 == 9 && board.Length1 == 9 &&
      InBounds(selected.0, selected.1) &&
      UserCellsFilled(Cells(board), userInputs)
    }

    constructor ()
      ensures Valid() && fresh(board)
      ensures Cells(board) == Example && userInputs == {} && selected == (0, 0) && status == Ready
    {
      board := new int[9, 9]((r, c) requires InBounds(r, c) => Example[r][c]);
      selected := (0, 0);
      userInputs := {};
      status := Ready;
      new;
      CellwiseEqual(Cells(board), Example);
    }

    /** Arrow keys. */
    method MoveSelection(dir: Direction)
      requires Valid()
      modifies this`selected
      ensures Valid() && selected == Moved(old(selected), dir)
    {
      var (row, col) := selected;
      if dir == Up && row > 0 {
        row := row - 1;
      } else if dir == Down && row < 8 {
        row := row + 1;
      } else if dir == Left && col > 0 {
        col := col - 1;
      } else if dir == Right && col < 8 {
        col := col + 1;
      }
      selected := (row, col);
    }

    /** A mouse click selects the cell under the pointer; clicks on the
        footer are ignored. */
    method Click(x: int, y: int)
      requires Valid() && 0 <= x < Width && 0 <= y < Height
      modifies this`selected
      ensures Valid()
      ensures selected == match CellAt(x, y) case Some(cell) => cell case None => old(selected)
    {
      if y < Height - FooterHeight {
        selected := (y / CellSize, x / CellSize);
      }
    }

    /** A key that is not an arrow, given by its character, whether it is
        backspace, and its decimal value: a non-zero digit is written into
        the selected cell and marks it as typed; backspace or a zero digit
        empties it and drops the mark; any other key leaves the board alone. */
    method EnterKey(ch: char, backspace: bool, value: Option<int>)
      requires Valid() && DecimalValue(ch, value)
      modifies this`userInputs, board
      ensures Valid()
      ensures KeyEdit(ch, backspace, value).Write? ==>
        Cells(board) == Place(old(Cells(board)), selected.0, selected.1, KeyEdit(ch, backspace, value).digit) &&
        userInputs == old(userInputs) + {selected}
      ensures KeyEdit(ch, backspace, value).Erase? ==>
        Cells(board) == Place(old(Cells(board)), selected.0, selected.1, 0) &&
        userInputs == old(userInputs) - {selected}
      ensures KeyEdit(ch, backspace, value).Ignore? ==>
        Cells(board) == old(Cells(board)) && userInputs == old(userInputs)
    {
      ghost var g := Cells(board);
      var (row, col) := selected;
      if value.Some? && value.value != 0 {
        board[row, col] := value.value;
        userInputs := userInputs + {(row, col)};
        CellwiseEqual(Cells(board), Place(g, row, col, value.value));
      } else if backspace || value == Some(0) {
        board[row, col] := 0;
        userInputs := userInputs - {(row, col)};
        CellwiseEqual(Cells(board), Place(g, row, col, 0));
      }
    }

    /** The editor's own copy of `is_valid`. */
    method IsValid(grid: array2<int>, row: int, col: int, num: int) returns (ok: bool)
      requires grid.Length0 == 9 && grid.Length1 == 9 && InBounds(row, col)
      ensures ok <==> CanPlace(Cells(grid), row, col, num)
    {
      ok := Solver.IsValid(grid, row, col, num);
    }

    /** The editor's own copy of `solve_sudoku`. */
    method SolveSudoku(grid: array2<int>) returns (ok: bool)
      requires grid.Length0 == 9 && grid.Length1 == 9
      modifies grid
      ensures !ok ==> Cells(grid) == old(Cells(grid)) && !Solvable(old(Cells(grid)))
      ensures ok ==> Solver.Found(old(Cells(grid)), Cells(grid))
      ensures Digits(old(Cells(grid))) && Consistent(old(Cells(grid))) ==> (ok <==> Solvable(old(Cells(grid))))
      ensures Filled(old(Cells(grid))) ==> ok && Cells(grid) == old(Cells(grid))
    {
      ok := Solver.Solve(grid);
    }

    /** R: clear every cell the user did not type in. */
    method ResetCalculated()
      requires Valid()
      modifies board
      ensures Valid()
      ensures Cells(board) == KeepUserCells(old(Cells(board)), userInputs)
    {
      ghost var g := Cells(board);
      ghost var k := KeepUserCells(g, userInputs);
      for row := 0 to 9
        invariant forall r, c :: InBounds(r, c) ==> board[r, c] == if r < row then k[r][c] else g[r][c]
      {
        for col := 0 to 9
          invariant forall r, c :: InBounds(r, c) ==>
            board[r, c] == if r < row || (r == row && c < col) then k[r][c] else g[r][c]
        {
          if (row, col) !in userInputs {
            board[row, col] := 0;
          }
        }
      }
      CellwiseEqual(Cells(board), k);
    }

    /** C: a fresh empty board and no user cells. */
    method ResetBoard()
      requires Valid()
      modifies this`board, this`userInputs
      ensures Valid() && fresh(board)
      ensures Cells(board) == Zeros && userInputs == {}
    {
      board := new int[9, 9]((r, c) => 0);
      userInputs := {};
      CellwiseEqual(Cells(board), Zeros);
    }

    /** The working copy S hands to the solver: a fresh array holding the
        same cells. */
    static method CopyBoard(a: array2<int>) returns (b: array2<int>)
      requires a.Length0 == 9 && a.Length1 == 9
      ensures fresh(b) && b.Length0 == 9 && b.Length1 == 9
      ensures Cells(b) == Cells(a)
    {
      b := new int[9, 9]((r, c) requires InBounds(r, c) reads a => a[r, c]);
      CellwiseEqual(Cells(b), Cells(a));
    }

    /** The merge step of S: every cell the user did not type in takes its
        value from the solved copy. */
    method WriteSolved(solved: array2<int>)
      requires Valid() && solved.Length0 == 9 && solved.Length1 == 9 && solved != board
      modifies board
      ensures Valid()
      ensures Cells(board) == Merge(old(Cells(board)), Cells(solved), userInputs)
    {
      ghost var g := Cells(board);
      ghost var m := Merge(g, Cells(solved), userInputs);
      for row := 0 to 9
        invariant forall r, c :: InBounds(r, c) ==> board[r, c] == if r < row then m[r][c] else g[r][c]
      {
        for col := 0 to 9
          invariant forall r, c :: InBounds(r, c) ==>
            board[r, c] == if r < row || (r == row && c < col) then m[r][c] else g[r][c]
        {
          if (row, col) !in userInputs {
            board[row, col] := solved[row, col];
          }
        }
      }
      CellwiseEqual(Cells(board), m);
    }

    /** S: solve a copy of the board; on success write the solved value into
        every cell the user did not type in, on failure keep the board. */
    method SolveCurrentBoard()
      requires Valid()
      modifies this`status, board
      ensures Valid()
      ensures status == Solved || status == NoSolution
      ensures status == NoSolution ==> Cells(board) == old(Cells(board)) && !Solvable(old(Cells(board)))
      ensures status == Solved ==> Solver.Found(old(Cells(board)), Cells(board))
      ensures Digits(old(Cells(board))) && Consistent(old(Cells(board))) ==> (status == Solved <==> Solvable(old(Cells(board))))
    {
      ghost var g := Cells(board);
      var temp := CopyBoard(board);
      var ok := SolveSudoku(temp);
      if ok {
        ghost var solved := Cells(temp);
        WriteSolved(temp);
        MergeOfExtension(g, solved, userInputs);
        status := Solved;
      } else {
        status := NoSolution;
      }
    }
  }
}
