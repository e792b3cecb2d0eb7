/** The vocabulary shared by the solver and the editor: a 9×9 Sudoku board,
    read as rows of cells, where 0 marks an empty cell. The solver and the
    editor keep the board in an `array2<int>`; `Cells` takes a snapshot of it
    as a value, and every property below is stated on such snapshots. */
module Grid {

  type Board = seq<seq<int>>

  predicate InBounds(r: int, c: int) {
    0 <= r < 9 && 0 <= c < 9
  }

  predicate IsBoard(g: Board) {
    |g| == 9 && forall r :: 0 <= r < 9 ==> |g[r]| == 9
  }

  /** The value held by an array board, row by row. */
  function Cells(a: array2<int>): (g: Board)
    requires a.Length0 == 9 && a.Length1 == 9
    reads a
    ensures IsBoard(g)
    ensures forall r, c :: InBounds(r, c) ==> g[r][c] == a[r, c]
  {
    seq(9, r requires 0 <= r < 9 reads a => seq(9, c requires 0 <= c < 9 reads a => a[r, c]))
  }

  /** The board with cell (r, c) set to v and every other cell as before. */
  function Place(g: Board, r: int, c: int, v: int): (h: Board)
    requires IsBoard(g) && InBounds(r, c)
    ensures IsBoard(h) && h[r][c] == v
    ensures forall i, j :: InBounds(i, j) && (i, j) != (r, c) ==> h[i][j] == g[i][j]
  {
    g[r := g[r][c := v]]
  }

  /** Two boards that agree on every cell are the same board. */
  lemma CellwiseEqual(g: Board, h: Board)
    requires IsBoard(g) && IsBoard(h)
    requires forall r, c :: InBounds(r, c) ==> g[r][c] == h[r][c]
    ensures g == h
  {
    forall r | 0 <= r < 9
      ensures g[r] == h[r]
    {
      assert forall c :: 0 <= c < 9 ==> g[r][c] == h[r][c];
    }
  }

  /** Writing the old value back undoes a placement. */
  lemma PlaceRestores(g: Board, r: int, c: int, v: int)
    requires IsBoard(g) && InBounds(r, c)
    ensures Place(Place(g, r, c, v), r, c, g[r][c]) == g
  {
    CellwiseEqual(Place(Place(g, r, c, v), r, c, g[r][c]), g);
  }

  /** Writing v into cell (r, c) of the array places v on its snapshot. */
  method Store(a: array2<int>, r: int, c: int, v: int)
    requires a.Length0 == 9 && a.Length1 == 9 && InBounds(r, c)
    modifies a
    ensures Cells(a) == Place(old(Cells(a)), r, c, v)
  {
    ghost var g := Cells(a);
    a[r, c] := v;
    CellwiseEqual(Cells(a), Place(g, r, c, v));
  }

  /** The board every cell of which is empty. */
  const Zeros: Board := seq(9, _ => seq(9, _ => 0))

  // ---------------------------------------------------------------------
  // The three constraints a candidate digit is checked against

  /** v occurs somewhere in row r (the cell being filled included). */
  predicate InRow(g: Board, r: int, v: int)
    requires IsBoard(g) && 0 <= r < 9
  {
    exists c :: 0 <= c < 9 && g[r][c] == v
  }

  /** v occurs somewhere in column c. */
  predicate InColumn(g: Board, c: int, v: int)
    requires IsBoard(g) && 0 <= c < 9
  {
    exists r :: 0 <= r < 9 && g[r][c] == v
  }

  /** First row (or column) of the 3×3 block holding row (or column) k. */
  function BlockStart(k: int): (s: int)
    requires 0 <= k < 9
    ensures s % 3 == 0 && s <= k < s + 3 && s + 3 <= 9
  {
    3 * (k / 3)
  }

  /** v occurs in the 3×3 block whose top-left corner is
      (BlockStart(r), BlockStart(c)). */
  predicate InBlock(g: Board, r: int, c: int, v: int)
    requires IsBoard(g) && InBounds(r, c)
  {
    exists i, j :: BlockStart(r) <= i < BlockStart(r) + 3 && BlockStart(c) <= j < BlockStart(c) + 3 && g[i][j] == v
  }

  /** The check `is_valid` performs: v is in none of the row, the column and
      the block of (r, c). */
  predicate CanPlace(g: Board, r: int, c: int, v: int)
    requires IsBoard(g) && InBounds(r, c)
  {
    !InRow(g, r, v) && !InColumn(g, c, v) && !InBlock(g, r, c, v)
  }

  // ---------------------------------------------------------------------
  // Solved boards

  /** Two cells share a row, a column or a 3×3 block. */
  predicate SameUnit(r1: int, c1: int, r2: int, c2: int) {
    r1 == r2 || c1 == c2 || (r1 / 3 == r2 / 3 && c1 / 3 == c2 / 3)
  }

  /** No non-zero digit occurs twice in a row, a column or a block. */
  ghost predicate Consistent(g: Board)
    requires IsBoard(g)
  {
    forall r1, c1, r2, c2 ::
      (InBounds(r1, c1) && InBounds(r2, c2) && (r1, c1) != (r2, c2) &&
       SameUnit(r1, c1, r2, c2) && g[r1][c1] != 0) ==> g[r1][c1] != g[r2][c2]
  }

  /** No cell is empty. */
  ghost predicate Filled(g: Board)
    requires IsBoard(g)
  {
    forall r, c :: InBounds(r, c) ==> g[r][c] != 0
  }

  /** Every cell holds 0 or a digit. */
  ghost predicate Digits(g: Board)
    requires IsBoard(g)
  {
    forall r, c :: InBounds(r, c) ==> 0 <= g[r][c] <= 9
  }

  /** Every cell holds a digit 1..9. */
  ghost predicate Complete(g: Board)
    requires IsBoard(g)
  {
    forall r, c :: InBounds(r, c) ==> 1 <= g[r][c] <= 9
  }

  ghost predicate IsSolution(s: Board) {
    IsBoard(s) && Complete(s) && Consistent(s)
  }

  /** s keeps every non-zero cell of g. */
  ghost predicate Extends(s: Board, g: Board)
    requires IsBoard(s) && IsBoard(g)
  {
    forall r, c :: InBounds(r, c) && g[r][c] != 0 ==> s[r][c] == g[r][c]
  }

  /** s holds a digit 1..9 in every cell that is empty in g. */
  ghost predicate FillsEmpty(s: Board, g: Board)
    requires IsBoard(s) && IsBoard(g)
  {
    forall r, c :: InBounds(r, c) && g[r][c] == 0 ==> 1 <= s[r][c] <= 9
  }

  /** Some solved board keeps every clue of g. */
  ghost predicate Solvable(g: Board)
    requires IsBoard(g)
  {
    exists s :: IsSolution(s) && Extends(s, g)
  }

  /** a and b agree on every cell that comes before (r, c) in row-major order. */
  ghost predicate AgreeBefore(a: Board, b: Board, r: int, c: int)
    requires IsBoard(a) && IsBoard(b)
  {
    forall i, j :: InBounds(i, j) && (i < r || (i == r && j < c)) ==> a[i][j] == b[i][j]
  }

  /** a is equal to b or smaller at the first cell, in row-major order, where
      they differ. */
  ghost predicate LexLeq(a: Board, b: Board)
    requires IsBoard(a) && IsBoard(b)
  {
    AgreeBefore(a, b, 9, 0) ||
    exists r, c :: InBounds(r, c) && a[r][c] < b[r][c] && AgreeBefore(a, b, r, c)
  }

  // ---------------------------------------------------------------------
  // Counting empty cells: the measure of the search

  function CountZeros(row: seq<int>): nat {
    if row == [] then 0 else (if row[0] == 0 then 1 else 0) + CountZeros(row[1..])
  }

  function ZeroCount(g: Board): nat {
    if g == [] then 0 else CountZeros(g[0]) + ZeroCount(g[1..])
  }

  lemma {:induction false} CountZerosBound(row: seq<int>)
    ensures CountZeros(row) <= |row|
    ensures CountZeros(row) == 0 <==> forall c :: 0 <= c < |row| ==> row[c] != 0
  {
    if row != [] {
      CountZerosBound(row[1..]);
      assert forall c :: 1 <= c < |row| ==> row[c] == row[1..][c - 1];
    }
  }

  lemma {:induction false} CountZerosUpdate(row: seq<int>, c: int, v: int)
    requires 0 <= c < |row| && row[c] == 0 && v != 0
    ensures CountZeros(row[c := v]) == CountZeros(row) - 1
  {
    if c > 0 {
      assert row[c := v][1..] == row[1..][c - 1 := v];
      CountZerosUpdate(row[1..], c - 1, v);
    } else {
      assert row[c := v][1..] == row[1..];
    }
  }

  /** Rows r.. of g together hold at most 9 zeros per row, and none exactly
      when every one of their cells is non-zero. */
  lemma {:induction false} ZeroCountSuffix(g: Board, r: nat)
    requires IsBoard(g) && r <= 9
    ensures ZeroCount(g[r..]) <= 9 * (9 - r)
    ensures ZeroCount(g[r..]) == 0 <==> forall i, j :: r <= i < 9 && 0 <= j < 9 ==> g[i][j] != 0
    decreases 9 - r
  {
    if r < 9 {
      assert g[r..][1..] == g[r + 1..];
      ZeroCountSuffix(g, r + 1);
      CountZerosBound(g[r]);
    }
  }

  /** The search is at most 81 levels deep, and a board has no empty cell
      exactly when its zero count is 0. */
  lemma ZeroCountBound(g: Board)
    requires IsBoard(g)
    ensures ZeroCount(g) <= 81
    ensures ZeroCount(g) == 0 <==> Filled(g)
  {
    assert g[0..] == g;
    ZeroCountSuffix(g, 0);
  }

  /** Filling one empty cell removes exactly one zero (stated for any list
      of rows, so that the induction can drop the first row). */
  lemma {:induction false} ZeroCountPlace(g: seq<seq<int>>, r: int, c: int, v: int)
    requires 0 <= r < |g| && 0 <= c < |g[r]| && g[r][c] == 0 && v != 0
    ensures ZeroCount(g[r := g[r][c := v]]) == ZeroCount(g) - 1
  {
    var h := g[r := g[r][c := v]];
    if r == 0 {
      assert h[1..] == g[1..];
      CountZerosUpdate(g[0], c, v);
    } else {
      assert h[1..] == g[1..][r - 1 := g[1..][r - 1][c := v]];
      ZeroCountPlace(g[1..], r - 1, c, v);
    }
  }

  // ---------------------------------------------------------------------
  // How placing a digit interacts with the constraints

  /** Row (or column) i lies in the block of row (or column) k exactly when
      both have the same quotient by 3. */
  lemma SameBlock(k: int, i: int)
    requires 0 <= k < 9 && 0 <= i < 9
    ensures i / 3 == k / 3 <==> BlockStart(k) <= i < BlockStart(k) + 3
  {
  }

  /** The digit a solution keeping g's clues holds at an empty cell of g is
      one that `is_valid` accepts there. */
  lemma SolutionDigitAccepted(g: Board, s: Board, r: int, c: int)
    requires IsBoard(g) && InBounds(r, c) && g[r][c] == 0
    requires IsSolution(s) && Extends(s, g)
    ensures CanPlace(g, r, c, s[r][c])
  {
    var v := s[r][c];
    forall j | 0 <= j < 9
      ensures g[r][j] != v
    {
      assert SameUnit(r, c, r, j);
    }
    forall i | 0 <= i < 9
      ensures g[i][c] != v
    {
      assert SameUnit(r, c, i, c);
    }
    forall i, j | BlockStart(r) <= i < BlockStart(r) + 3 && BlockStart(c) <= j < BlockStart(c) + 3
      ensures g[i][j] != v
    {
      SameBlock(r, i);
      SameBlock(c, j);
      assert SameUnit(r, c, i, j);
    }
  }

  /** A board keeping g's clues and holding v at (r, c) keeps the clues of g
      with v placed there. */
  lemma ExtendsPlace(s: Board, g: Board, r: int, c: int, v: int)
    requires IsBoard(s) && IsBoard(g) && InBounds(r, c) && Extends(s, g)
    ensures s[r][c] == v ==> Extends(s, Place(g, r, c, v))
  {
  }

  /** Placing a digit that `is_valid` accepts keeps a consistent board
      consistent. */
  lemma PlaceKeepsConsistent(g: Board, r: int, c: int, v: int)
    requires IsBoard(g) && InBounds(r, c) && Consistent(g) && CanPlace(g, r, c, v)
    ensures Consistent(Place(g, r, c, v))
  {
    var h := Place(g, r, c, v);
    forall r1, c1, r2, c2 |
      InBounds(r1, c1) && InBounds(r2, c2) && (r1, c1) != (r2, c2) &&
      SameUnit(r1, c1, r2, c2) && h[r1][c1] != 0
      ensures h[r1][c1] != h[r2][c2]
    {
      if (r1, c1) == (r, c) {
        PlacedDigitUnique(g, r, c, v, r2, c2);
      } else if (r2, c2) == (r, c) {
        PlacedDigitUnique(g, r, c, v, r1, c1);
      }
    }
  }

  /** A digit accepted for (r, c) differs from every other cell sharing a
      unit with (r, c). */
  lemma PlacedDigitUnique(g: Board, r: int, c: int, v: int, i: int, j: int)
    requires IsBoard(g) && InBounds(r, c) && CanPlace(g, r, c, v)
    requires InBounds(i, j) && SameUnit(r, c, i, j)
    ensures g[i][j] != v
  {
    if i == r {
      assert !InRow(g, r, v);
    } else if j == c {
      assert !InColumn(g, c, v);
    } else {
      SameBlock(r, i);
      SameBlock(c, j);
      assert !InBlock(g, r, c, v);
    }
  }

  /** Every filled cell of a complete board passes `is_valid` once it is
      emptied again exactly when the board is consistent: re-checking a
      solved board cell by cell is the same as checking its units. */
  lemma ConsistentIffEveryCellRechecks(g: Board)
    requires IsBoard(g) && Filled(g)
    ensures Consistent(g) <==> forall r, c :: InBounds(r, c) ==> CanPlace(Place(g, r, c, 0), r, c, g[r][c])
  {
    if Consistent(g) {
      forall r, c | InBounds(r, c)
        ensures CanPlace(Place(g, r, c, 0), r, c, g[r][c])
      {
        ClearedCellRechecks(g, r, c);
      }
    }
    if forall r, c :: InBounds(r, c) ==> CanPlace(Place(g, r, c, 0), r, c, g[r][c]) {
      forall r1, c1, r2, c2 |
        InBounds(r1, c1) && InBounds(r2, c2) && (r1, c1) != (r2, c2) &&
        SameUnit(r1, c1, r2, c2) && g[r1][c1] != 0
        ensures g[r1][c1] != g[r2][c2]
      {
        var h := Place(g, r1, c1, 0);
        PlacedDigitUnique(h, r1, c1, g[r1][c1], r2, c2);
      }
    }
  }

  /** In a consistent board, the digit of a filled cell passes `is_valid`
      for that cell once the cell is emptied. */
  lemma ClearedCellRechecks(g: Board, r: int, c: int)
    requires IsBoard(g) && Consistent(g) && InBounds(r, c) && g[r][c] != 0
    ensures CanPlace(Place(g, r, c, 0), r, c, g[r][c])
  {
    var h, v := Place(g, r, c, 0), g[r][c];
    forall j | 0 <= j < 9
      ensures h[r][j] != v
    {
      assert SameUnit(r, c, r, j);
    }
    forall i | 0 <= i < 9
      ensures h[i][c] != v
    {
      assert SameUnit(r, c, i, c);
    }
    forall i, j | BlockStart(r) <= i < BlockStart(r) + 3 && BlockStart(c) <= j < BlockStart(c) + 3
      ensures h[i][j] != v
    {
      SameBlock(r, i);
      SameBlock(c, j);
      assert SameUnit(r, c, i, j);
    }
  }

  // ---------------------------------------------------------------------
  // Every unit of a solution is a permutation of 1..9

  function Elements(xs: seq<int>): set<int> {
    set x | x in xs
  }

  lemma SubsetSameSize(a: set<int>, b: set<int>)
    requires a <= b && |a| == |b|
    ensures a == b
  {
    assert b == a + (b - a);
    assert a * (b - a) == {};
    assert b - a == {};
  }

  lemma {:induction false} DistinctSize(xs: seq<int>)
    requires forall i, j :: 0 <= i < j < |xs| ==> xs[i] != xs[j]
    ensures |Elements(xs)| == |xs|
  {
    if xs != [] {
      DistinctSize(xs[1..]);
      assert Elements(xs) == {xs[0]} + Elements(xs[1..]);
    }
  }

  /** Nine distinct digits 1..9 are all of them. */
  lemma Pigeonhole(xs: seq<int>)
    requires |xs| == 9 && forall i :: 0 <= i < 9 ==> 1 <= xs[i] <= 9
    requires forall i, j :: 0 <= i < j < 9 ==> xs[i] != xs[j]
    ensures forall v :: 1 <= v <= 9 ==> v in xs
  {
    DistinctSize(xs);
    var digits := {1, 2, 3, 4, 5, 6, 7, 8, 9};
    assert |digits| == 9;
    SubsetSameSize(Elements(xs), digits);
  }

  /** In a solution, every row, every column and every block holds every
      digit 1..9: with nine cells each, each is a permutation of 1..9. */
  lemma SolutionUnitsArePermutations(s: Board, r: int, c: int, v: int)
    requires IsSolution(s) && InBounds(r, c) && 1 <= v <= 9
    ensures InRow(s, r, v) && InColumn(s, c, v) && InBlock(s, r, c, v)
  {
    SolutionRowHasDigit(s, r, v);
    SolutionColumnHasDigit(s, c, v);
    SolutionBlockHasDigit(s, r, c, v);
  }

  lemma SolutionRowHasDigit(s: Board, r: int, v: int)
    requires IsSolution(s) && 0 <= r < 9 && 1 <= v <= 9
    ensures InRow(s, r, v)
  {
    forall i, j | 0 <= i < j < 9
      ensures s[r][i] != s[r][j]
    {
      assert SameUnit(r, i, r, j);
    }
    Pigeonhole(s[r]);
    assert v in s[r];
  }

  lemma SolutionColumnHasDigit(s: Board, c: int, v: int)
    requires IsSolution(s) && 0 <= c < 9 && 1 <= v <= 9
    ensures InColumn(s, c, v)
  {
    var column := seq(9, i requires 0 <= i < 9 => s[i][c]);
    forall i, j | 0 <= i < j < 9
      ensures column[i] != column[j]
    {
      assert SameUnit(i, c, j, c);
    }
    Pigeonhole(column);
    assert v in column;
  }

  lemma SolutionBlockHasDigit(s: Board, r: int, c: int, v: int)
    requires IsSolution(s) && InBounds(r, c) && 1 <= v <= 9
    ensures InBlock(s, r, c, v)
  {
    var br, bc := BlockStart(r), BlockStart(c);
    var block := seq(9, k requires 0 <= k < 9 => s[br + k / 3][bc + k % 3]);
    forall k1, k2 | 0 <= k1 < k2 < 9
      ensures block[k1] != block[k2]
    {
      BlockCellsDiffer(s, r, c, k1, k2);
    }
    Pigeonhole(block);
    assert v in block;
  }

  /** The k-th cell of a block, counted row by row, holds a different digit
      for each k. */
  lemma BlockCellsDiffer(s: Board, r: int, c: int, k1: int, k2: int)
    requires IsSolution(s) && InBounds(r, c) && 0 <= k1 < k2 < 9
    ensures s[BlockStart(r) + k1 / 3][BlockStart(c) + k1 % 3] != s[BlockStart(r) + k2 / 3][BlockStart(c) + k2 % 3]
  {
    var i1, j1 := BlockStart(r) + k1 / 3, BlockStart(c) + k1 % 3;
    var i2, j2 := BlockStart(r) + k2 / 3, BlockStart(c) + k2 % 3;
    assert (i1, j1) != (i2, j2);
    SameBlock(r, i1);
    SameBlock(r, i2);
    SameBlock(c, j1);
    SameBlock(c, j2);
    assert SameUnit(i1, j1, i2, j2);
  }

  // ---------------------------------------------------------------------
  // The row-major order on boards

  /** Two boards each no greater than the other are equal, so "least
      solution" names at most one board. */
  lemma LexLeqAntisymmetric(a: Board, b: Board)
    requires IsBoard(a) && IsBoard(b) && LexLeq(a, b) && LexLeq(b, a)
    ensures a == b
  {
    assert AgreeBefore(a, b, 9, 0);
    CellwiseEqual(a, b);
  }

  // ---------------------------------------------------------------------
  // A solution of the empty board

  function PatternCell(r: int, c: int): int {
    (3 * (r % 3) + r / 3 + c) % 9 + 1
  }

  /** Adding two different offsets below 9 to the same base gives different
      residues modulo 9. */
  lemma ShiftsDiffer(k: int, x1: int, x2: int)
    requires 0 <= k && 0 <= x1 < 9 && 0 <= x2 < 9 && x1 != x2
    ensures (k + x1) % 9 != (k + x2) % 9
  {
    var q := k / 9;
    assert k == 9 * q + k % 9;
  }

  lemma PatternRowsDiffer(r: int, c1: int, c2: int)
    requires InBounds(r, c1) && InBounds(r, c2) && c1 != c2
    ensures PatternCell(r, c1) != PatternCell(r, c2)
  {
    ShiftsDiffer(3 * (r % 3) + r / 3, c1, c2);
  }

  lemma PatternColumnsDiffer(r1: int, r2: int, c: int)
    requires InBounds(r1, c) && InBounds(r2, c) && r1 != r2
    ensures PatternCell(r1, c) != PatternCell(r2, c)
  {
    var a1, b1, a2, b2 := r1 % 3, r1 / 3, r2 % 3, r2 / 3;
    assert r1 == 3 * b1 + a1 && r2 == 3 * b2 + a2;
    assert 3 * a1 + b1 != 3 * a2 + b2;
    ShiftsDiffer(c, 3 * a1 + b1, 3 * a2 + b2);
  }

  lemma PatternBlocksDiffer(r1: int, c1: int, r2: int, c2: int)
    requires InBounds(r1, c1) && InBounds(r2, c2) && r1 != r2 && c1 != c2
    requires r1 / 3 == r2 / 3 && c1 / 3 == c2 / 3
    ensures PatternCell(r1, c1) != PatternCell(r2, c2)
  {
    var band, stack := r1 / 3, c1 / 3;
    var a1, b1, a2, b2 := r1 % 3, c1 % 3, r2 % 3, c2 % 3;
    assert r1 == 3 * band + a1 && r2 == 3 * band + a2;
    assert c1 == 3 * stack + b1 && c2 == 3 * stack + b2;
    assert 3 * a1 + band + c1 == (band + 3 * stack) + (3 * a1 + b1);
    assert 3 * a2 + band + c2 == (band + 3 * stack) + (3 * a2 + b2);
    ShiftsDiffer(band + 3 * stack, 3 * a1 + b1, 3 * a2 + b2);
  }

  /** The empty board has a solution, so the solver succeeds on it. */
  lemma EmptyBoardSolvable()
    ensures Solvable(Zeros)
  {
    var p := seq(9, r => seq(9, c => PatternCell(r, c)));
    forall r1, c1, r2, c2 |
      InBounds(r1, c1) && InBounds(r2, c2) && (r1, c1) != (r2, c2) && SameUnit(r1, c1, r2, c2)
      ensures p[r1][c1] != p[r2][c2]
    {
      if r1 == r2 {
        PatternRowsDiffer(r1, c1, c2);
      } else if c1 == c2 {
        PatternColumnsDiffer(r1, r2, c1);
      } else {
        PatternBlocksDiffer(r1, c1, r2, c2);
      }
    }
    assert IsSolution(p) && Extends(p, Zeros);
  }
}
