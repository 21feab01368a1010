/** The sudoku backtracker, which assigns and undoes cells of a shared grid around a recursive call. */
module Sudoku {

  const DIM := 9
  const BLANK := 0

  type Board = seq<seq<int>>

  ghost predicate Shaped(b: Board) {
    |b| == DIM && forall r :: 0 <= r < DIM ==> |b[r]| == DIM
  }

  ghost predicate Place(r: int, c: int) { 0 <= r < DIM && 0 <= c < DIM }

  /** Different cells that share a row, a column or a 3x3 box. */
  ghost predicate Peers(r: int, c: int, r': int, c': int)
    requires Place(r, c) && Place(r', c')
  {
    (r != r' || c != c') && (r == r' || c == c' || (r / 3 == r' / 3 && c / 3 == c' / 3))
  }

  ghost predicate Extends(b: Board, g: Board)
    requires Shaped(b) && Shaped(g)
  {
    forall r, c :: Place(r, c) && b[r][c] != BLANK ==> g[r][c] == b[r][c]
  }

  /** No peer of the cell holds the same number. */
  ghost predicate Alone(g: Board, r: int, c: int)
    requires Shaped(g) && Place(r, c)
  {
    forall r', c' :: Place(r', c') && Peers(r, c, r', c') ==> g[r'][c'] != g[r][c]
  }

  /** `g` fills the blanks of `b` with numbers 1 to 9 that differ from all their peers. */
  ghost predicate Fills(b: Board, g: Board)
    requires Shaped(b)
  {
    && Shaped(g) && Extends(b, g)
    && forall r, c :: Place(r, c) && b[r][c] == BLANK ==> 1 <= g[r][c] <= 9 && Alone(g, r, c)
  }

  // ----- what the puzzle asks for -----

  ghost predicate Solved(g: Board) {
    && Shaped(g)
    && forall r, c :: Place(r, c) ==> 1 <= g[r][c] <= 9 && Alone(g, r, c)
  }

  /** The givens are numbers of the puzzle and no two peers among them are equal. */
  ghost predicate Consistent(b: Board)
    requires Shaped(b)
  {
    && (forall r, c :: Place(r, c) ==> 0 <= b[r][c] <= 9)
    && forall r, c, r', c' :: Place(r, c) && Place(r', c') && Peers(r, c, r', c') && b[r][c] != BLANK ==>
      b[r'][c'] != b[r][c]
  }

  /** For consistent givens, filling is solving. */
  lemma FillingIsSolving(b: Board, g: Board)
    requires Shaped(b) && Consistent(b)
    ensures Fills(b, g) <==> Solved(g) && Extends(b, g)
  {
    if Fills(b, g) {
      forall r, c | Place(r, c)
        ensures 1 <= g[r][c] <= 9 && Alone(g, r, c)
      {
        forall r', c' | Place(r', c') && Peers(r, c, r', c')
          ensures g[r'][c'] != g[r][c]
        {
          if b[r][c] != BLANK && b[r'][c'] == BLANK {
            assert Alone(g, r', c') && Peers(r', c', r, c);
          }
        }
      }
    }
  }

  lemma SolvedMeansConsistent(b: Board, g: Board)
    requires Shaped(b) && Solved(g) && Extends(b, g)
    ensures Consistent(b)
  {
    forall r, c, r', c' | Place(r, c) && Place(r', c') && Peers(r, c, r', c') && b[r][c] != BLANK
      ensures b[r'][c'] != b[r][c]
    {
      assert Alone(g, r, c);
    }
    forall r, c | Place(r, c)
      ensures 0 <= b[r][c] <= 9
    {
      assert 1 <= g[r][c] <= 9;
    }
  }

  /** The solver looks for a filling.  What it finds is a solution if and only if the givens are consistent,
      and otherwise there is none. */
  lemma TrueAnswerRightIff(b: Board, g: Board)
    requires Shaped(b) && Fills(b, g)
    ensures Solved(g) <==> Consistent(b)
    ensures (exists h :: Solved(h) && Extends(b, h)) <==> Consistent(b)
  {
    if Consistent(b) {
      FillingIsSolving(b, g);
    } else {
      forall h | Solved(h) && Extends(b, h)
        ensures false
      {
        SolvedMeansConsistent(b, h);
      }
    }
  }

  /** Without a filling there is no solution, whatever the givens. */
  lemma FalseAnswerRight(b: Board)
    requires Shaped(b) && forall g :: !Fills(b, g)
    ensures forall g :: !(Solved(g) && Extends(b, g))
  {
    forall g | Solved(g) && Extends(b, g)
      ensures false
    {
      SolvedMeansConsistent(b, g);
      FillingIsSolving(b, g);
    }
  }

  /** A full grid of ones is "solved" at once, although it is not a solution. */
  lemma FullGridIsAccepted()
    ensures var b := seq(DIM, _ => seq(DIM, _ => 1));
      Shaped(b) && Fills(b, b) && !Solved(b) && forall g :: !(Solved(g) && Extends(b, g))
  {
    var b := seq(DIM, _ => seq(DIM, _ => 1));
    assert Peers(0, 0, 0, 1) && b[0][0] == b[0][1] == 1;
    assert Place(0, 0) && Place(0, 1) && !Consistent(b);
    forall g | Solved(g) && Extends(b, g)
      ensures false
    {
      SolvedMeansConsistent(b, g);
    }
    assert !Alone(b, 0, 0);
  }

  // ----- one assignment -----

  ghost predicate Safe(b: Board, r: int, c: int, num: int)
    requires Shaped(b) && Place(r, c)
  {
    forall r', c' :: Place(r', c') && Peers(r, c, r', c') ==> b[r'][c'] != num
  }

  ghost function Assign(b: Board, r: int, c: int, num: int): (b': Board)
    requires Shaped(b) && Place(r, c)
    ensures Shaped(b')
    ensures forall i, j :: Place(i, j) ==> b'[i][j] == if i == r && j == c then num else b[i][j]
  {
    b[r := b[r][c := num]]
  }

  lemma SameBoard(b: Board, b': Board)
    requires Shaped(b) && Shaped(b') && forall r, c :: Place(r, c) ==> b[r][c] == b'[r][c]
    ensures b == b'
  {
    forall r | 0 <= r < DIM
      ensures b[r] == b'[r]
    {
      assert forall c :: 0 <= c < DIM ==> Place(r, c) && b[r][c] == b'[r][c];
    }
  }

  /** Filling after a safe assignment is filling with that number in place. */
  lemma AssignedFills(b: Board, r: int, c: int, num: int, g: Board)
    requires Shaped(b) && Place(r, c) && b[r][c] == BLANK && 1 <= num <= 9 && Safe(b, r, c, num)
    ensures Fills(Assign(b, r, c, num), g) <==> Fills(b, g) && g[r][c] == num
  {
    var b' := Assign(b, r, c, num);
    if Fills(b', g) {
      assert g[r][c] == num;
      forall r', c' | Place(r', c') && Peers(r, c, r', c')
        ensures g[r'][c'] != g[r][c]
      {
        if b[r'][c'] == BLANK {
          assert Alone(g, r', c') && Peers(r', c', r, c);
        }
      }
      forall i, j | Place(i, j) && b[i][j] == BLANK
        ensures 1 <= g[i][j] <= 9 && Alone(g, i, j)
      {
        assert (i == r && j == c) || b'[i][j] == BLANK;
      }
      forall i, j | Place(i, j) && b[i][j] != BLANK
        ensures g[i][j] == b[i][j]
      {
        assert b'[i][j] == b[i][j];
      }
    }
  }

  /** An unsafe number is in no filling. */
  lemma UnsafeFillsNothing(b: Board, r: int, c: int, num: int, g: Board)
    requires Shaped(b) && Place(r, c) && b[r][c] == BLANK && 1 <= num && !Safe(b, r, c, num)
    ensures !(Fills(b, g) && g[r][c] == num)
  {
  }

  /** The first place where the grids differ, in row-major order, holds the smaller number in `a`. */
  ghost predicate Below(a: Board, g: Board, r: int, c: int)
    requires Shaped(a) && Shaped(g)
  {
    && Place(r, c) && a[r][c] < g[r][c]
    && forall i, j :: Place(i, j) && Earlier(i, j, r, c) ==> a[i][j] == g[i][j]
  }

  ghost predicate Earlier(i: int, j: int, r: int, c: int) { i < r || (i == r && j < c) }

  ghost predicate NotAfter(a: Board, g: Board)
    requires Shaped(a) && Shaped(g)
  {
    a == g || exists r, c :: Below(a, g, r, c)
  }

  /** A grid without blanks is its own only filling. */
  lemma FullIsLeast(b: Board)
    requires Shaped(b) && forall r, c :: Place(r, c) ==> b[r][c] != BLANK
    ensures forall g :: Fills(b, g) ==> NotAfter(b, g)
  {
    forall g | Fills(b, g)
      ensures b == g
    {
      SameBoard(b, g);
    }
  }

  lemma FullFillsItself(b: Board)
    requires Shaped(b) && forall r, c :: Place(r, c) ==> b[r][c] != BLANK
    ensures Fills(b, b)
  {
  }

  /** A filling with the smaller number in the first blank comes first. */
  lemma SmallerIsLeast(b: Board, row: int, col: int, a: Board, g: Board)
    requires Shaped(b) && Place(row, col) && Fills(b, a) && Fills(b, g) && a[row][col] < g[row][col]
    requires forall r, c :: Place(r, c) && Earlier(r, c, row, col) ==> b[r][c] != BLANK
    ensures NotAfter(a, g)
  {
    assert Below(a, g, row, col);
  }

  /** The least filling with the least number that leads to one is the least of all. */
  lemma LeastThrough(b: Board, row: int, col: int, num: int, a: Board)
    requires Shaped(b) && Place(row, col) && b[row][col] == BLANK && 1 <= num <= 9 && Safe(b, row, col, num)
    requires forall r, c :: Place(r, c) && Earlier(r, c, row, col) ==> b[r][c] != BLANK
    requires Fills(Assign(b, row, col, num), a)
    requires forall g :: Fills(Assign(b, row, col, num), g) ==> NotAfter(a, g)
    requires forall g :: Fills(b, g) ==> g[row][col] >= num
    ensures forall g :: Fills(b, g) ==> NotAfter(a, g)
  {
    AssignedFills(b, row, col, num, a);
    forall g | Fills(b, g)
      ensures NotAfter(a, g)
    {
      AssignedFills(b, row, col, num, g);
      if g[row][col] != num {
        SmallerIsLeast(b, row, col, a, g);
      }
    }
  }

  ghost function Blanks(b: Board): set<(int, int)>
    requires Shaped(b)
  {
    set r, c | 0 <= r < DIM && 0 <= c < DIM && b[r][c] == BLANK :: (r, c)
  }

  // ----- the program -----

  ghost function BoardOf(grid: array2<int>): (b: Board)
    requires grid.Length0 == DIM && grid.Length1 == DIM
    reads grid
    ensures Shaped(b) && forall r, c :: Place(r, c) ==> b[r][c] == grid[r, c]
  {
    seq(DIM, r requires 0 <= r < DIM reads grid => seq(DIM, c requires 0 <= c < DIM reads grid => grid[r, c]))
  }

  method UsedInRow(grid: array2<int>, row: nat, num: int) returns (used: bool)
    requires grid.Length0 == DIM && grid.Length1 == DIM && row < DIM
    ensures used <==> exists c :: 0 <= c < DIM && grid[row, c] == num
  {
    for col := 0 to DIM
      invariant forall c :: 0 <= c < col ==> grid[row, c] != num
    {
      if grid[row, col] == num {
        return true;
      }
    }
    return false;
  }

  method UsedInCol(grid: array2<int>, col: nat, num: int) returns (used: bool)
    requires grid.Length0 == DIM && grid.Length1 == DIM && col < DIM
    ensures used <==> exists r :: 0 <= r < DIM && grid[r, col] == num
  {
    for row := 0 to DIM
      invariant forall r :: 0 <= r < row ==> grid[r, col] != num
    {
      if grid[row, col] == num {
        return true;
      }
    }
    return false;
  }

  method UsedInBox(grid: array2<int>, boxStartRow: nat, boxStartCol: nat, num: int) returns (used: bool)
    requires grid.Length0 == DIM && grid.Length1 == DIM && boxStartRow + 3 <= DIM && boxStartCol + 3 <= DIM
    ensures used <==> exists r, c ::
      boxStartRow <= r < boxStartRow + 3 && boxStartCol <= c < boxStartCol + 3 && grid[r, c] == num
  {
    for row := 0 to 3
      invariant forall r, c ::
        boxStartRow <= r < boxStartRow + row && boxStartCol <= c < boxStartCol + 3 ==> grid[r, c] != num
    {
      for col := 0 to 3
        invariant forall r, c :: r == row + boxStartRow && boxStartCol <= c < boxStartCol + col ==> grid[r, c] != num
      {
        if grid[row + boxStartRow, col + boxStartCol] == num {
          return true;
        }
      }
    }
    return false;
  }

  method IsSafe(grid: array2<int>, row: nat, col: nat, num: int) returns (safe: bool)
    requires grid.Length0 == DIM && grid.Length1 == DIM && row < DIM && col < DIM
    ensures safe <==> grid[row, col] != num && Safe(BoardOf(grid), row, col, num)
  {
    var inRow := UsedInRow(grid, row, num);
    if inRow {
      ghost var c :| 0 <= c < DIM && grid[row, c] == num;
      assert c == col || Peers(row, col, row, c);
      return false;
    }
    var inCol := UsedInCol(grid, col, num);
    if inCol {
      ghost var r :| 0 <= r < DIM && grid[r, col] == num;
      assert r == row || Peers(row, col, r, col);
      return false;
    }
    var inBox := UsedInBox(grid, row - row % 3, col - col % 3, num);
    if inBox {
      ghost var r, c :|
        row - row % 3 <= r < row - row % 3 + 3 && col - col % 3 <= c < col - col % 3 + 3 && grid[r, c] == num;
      assert (r == row && c == col) || Peers(row, col, r, c);
      return false;
    }
    return true;
  }

  /** The first blank in row-major order, (9, 9) if there is none. */
  method GetUnassignedLocation(grid: array2<int>) returns (row: nat, col: nat)
    requires grid.Length0 == DIM && grid.Length1 == DIM
    ensures (row == DIM && col == DIM && forall r, c :: Place(r, c) ==> grid[r, c] != BLANK)
         || (row < DIM && col < DIM && grid[row, col] == BLANK &&
             forall r, c :: Place(r, c) && (r < row || (r == row && c < col)) ==> grid[r, c] != BLANK)
  {
    for r := 0 to DIM
      invariant forall i, j :: Place(i, j) && i < r ==> grid[i, j] != BLANK
    {
      for c := 0 to DIM
        invariant forall j :: 0 <= j < c ==> grid[r, j] != BLANK
      {
        if grid[r, c] == BLANK {
          return r, c;
        }
      }
    }
    return DIM, DIM;
  }

  /** True with the blanks filled, or false with the grid as it was and no filling at all.  The filled grid
      is the least filling in row-major order, and a solution exactly if the givens are consistent; false is
      always right.  No condition is put on the grid; the number of blanks bounds the recursion. */
  method SolveSudoku(grid: array2<int>) returns (solved: bool)
    requires grid.Length0 == DIM && grid.Length1 == DIM
    modifies grid
    ensures solved ==> Fills(old(BoardOf(grid)), BoardOf(grid))
    ensures !solved ==> BoardOf(grid) == old(BoardOf(grid)) && forall g :: !Fills(old(BoardOf(grid)), g)
    ensures solved ==> forall g :: Fills(old(BoardOf(grid)), g) ==> NotAfter(BoardOf(grid), g)
    ensures solved ==> (Solved(BoardOf(grid)) <==> Consistent(old(BoardOf(grid))))
    ensures !solved ==> forall g :: !(Solved(g) && Extends(old(BoardOf(grid)), g))
    ensures Consistent(old(BoardOf(grid))) ==>
      (solved <==> exists g :: Solved(g) && Extends(old(BoardOf(grid)), g))
    decreases Blanks(BoardOf(grid))
  {
    hide Solved, Consistent, NotAfter, Alone, Safe, Extends;
    ghost var b := BoardOf(grid);
    var row, col := GetUnassignedLocation(grid);
    if row == DIM && col == DIM {
      FullFillsItself(b);
      TrueAnswerRightIff(b, b);
      FullIsLeast(b);
      return true;
    }
    row, col := GetUnassignedLocation(grid);
    for num := 1 to DIM + 1
      invariant BoardOf(grid) == b
      invariant forall r, c :: Place(r, c) && Earlier(r, c, row, col) ==> b[r][c] != BLANK
      invariant forall g :: Fills(b, g) ==> g[row][col] >= num
    {
      var safe := IsSafe(grid, row, col, num);
      if safe {
        grid[row, col] := num;
        SameBoard(BoardOf(grid), Assign(b, row, col, num));
        assert (row, col) in Blanks(b) && (row, col) !in Blanks(BoardOf(grid));
        var done := SolveSudoku(grid);
        if done {
          AssignedFills(b, row, col, num, BoardOf(grid));
          TrueAnswerRightIff(b, BoardOf(grid));
          LeastThrough(b, row, col, num, BoardOf(grid));
          return true;
        }
        grid[row, col] := BLANK;
        SameBoard(BoardOf(grid), b);
        forall g | Fills(b, g)
          ensures g[row][col] >= num + 1
        {
          AssignedFills(b, row, col, num, g);
        }
      } else {
        forall g | Fills(b, g)
          ensures g[row][col] >= num + 1
        {
          UnsafeFillsNothing(b, row, col, num, g);
        }
      }
    }
    FalseAnswerRight(b);
    return false;
  }
}
