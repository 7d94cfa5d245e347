/**
 * The solver's mutable state: the 9x9 board and the 27 used-digit sets, with
 * the operations that change them together and the recursive backtracking
 * search over them.
 */
module SudokuSolver {
  import opened Options
  import opened SudokuGrid
  import opened SudokuSearch
  import opened SudokuPuzzles

  class Solver {
    /** The board, 0 for an empty cell. */
    const board: array2<int>
    /** Digits used in each row, column and 3x3 box. */
    var rows: seq<set<int>>
    var cols: seq<set<int>>
    var subgrids: seq<set<int>>

    /** The board's contents as a grid value. */
    ghost var Cells: Grid

    /** The board is 9x9, there are nine sets of each kind, and Cells mirrors the board. */
    ghost predicate Shaped()
      reads this, board
    {
      board.Length0 == Size && board.Length1 == Size &&
      |rows| == Size && |cols| == Size && |subgrids| == Size &&
      IsGrid(Cells) &&
      forall r, c :: 0 <= r < Size && 0 <= c < Size ==> board[r, c] == Cells[r][c]
    }

    /** The object invariant: each set holds exactly the digits placed in its row, column or box. */
    ghost predicate Valid()
      reads this, board
    {
      Shaped() && Tracks(Cells, rows, cols, subgrids)
    }

    /** A new solver has an empty board and empty sets. */
    constructor ()
      ensures Valid() && Cells == Blank() && fresh(board)
      ensures rows == NoDigits() && cols == NoDigits() && subgrids == NoDigits()
    {
      board := new int[Size, Size]((_, _) => 0);
      rows, cols, subgrids := NoDigits(), NoDigits(), NoDigits();
      Cells := Blank();
      new;
      BlankTracks();
    }

    /** Empties every set and every cell. */
    method ClearBoard()
      requires Shaped()
      modifies this, board
      ensures Valid() && Cells == Blank()
      ensures rows == NoDigits() && cols == NoDigits() && subgrids == NoDigits()
    {
      var i := 0;
      while i < Size
        invariant 0 <= i <= Size && Shaped()
        invariant forall k :: 0 <= k < i ==> rows[k] == {} && cols[k] == {} && subgrids[k] == {}
      {
        rows, cols, subgrids := rows[i := {}], cols[i := {}], subgrids[i := {}];
        i := i + 1;
      }
      var row := 0;
      while row < Size
        invariant 0 <= row <= Size
        invariant forall r, c :: 0 <= r < row && 0 <= c < Size ==> board[r, c] == 0
        modifies board
      {
        var col := 0;
        while col < Size
          invariant 0 <= col <= Size
          modifies board
          invariant forall r, c :: 0 <= r < row && 0 <= c < Size ==> board[r, c] == 0
          invariant forall c :: 0 <= c < col ==> board[row, c] == 0
        {
          board[row, col] := 0;
          col := col + 1;
        }
        row := row + 1;
      }
      Cells := Blank();
      assert forall k :: 0 <= k < Size ==> rows[k] == NoDigits()[k] && cols[k] == NoDigits()[k] && subgrids[k] == NoDigits()[k];
      BlankTracks();
    }

    /**
     * Clears the board, then copies the puzzle into it and records every
     * given digit in its row, column and box set.
     */
    method LoadPuzzle(puzzle: Grid)
      requires Shaped() && IsGrid(puzzle)
      modifies this, board
      ensures Valid() && Cells == puzzle
    {
      ClearBoard();
      var row := 0;
      while row < Size
        invariant 0 <= row <= Size && Valid()
        invariant forall i, j :: 0 <= i < Size && 0 <= j < Size ==>
          Cells[i][j] == if i < row then puzzle[i][j] else 0
      {
        var col := 0;
        while col < Size
          invariant 0 <= col <= Size && Valid()
          invariant forall i, j :: 0 <= i < Size && 0 <= j < Size ==>
            Cells[i][j] == if i < row || (i == row && j < col) then puzzle[i][j] else 0
        {
          var val := puzzle[row][col];
          // writing a 0 leaves the cleared cell as it is
          if val != 0 {
            PlaceNumber(row, col, val);
          }
          col := col + 1;
        }
        row := row + 1;
      }
      SameCells(Cells, puzzle);
    }

    /**
     * "Load Random Puzzle": loads the built-in puzzle with index choice, the
     * value the random generator draws from 0 .. |Puzzles()| - 1.
     */
    method LoadRandomPuzzle(choice: int)
      requires Shaped() && 0 <= choice < |Puzzles()|
      modifies this, board
      ensures Valid() && Cells == Puzzles()[choice] && DigitsInRange(Cells)
    {
      LoadPuzzle(Puzzles()[choice]);
    }

    /**
     * Writes num into (row, col) and adds it to the cell's row, column and
     * box sets; nothing else changes. From a valid state, into an empty cell
     * and with a non-zero digit, the sets still track the board afterwards.
     */
    method PlaceNumber(row: int, col: int, num: int)
      requires Shaped() && InRange(row, col)
      modifies this, board
      ensures Shaped() && Cells == Update(old(Cells), row, col, num)
      ensures rows == Added(old(rows), row, num) && cols == Added(old(cols), col, num)
      ensures subgrids == Added(old(subgrids), Box(row, col), num)
      ensures old(Valid()) && old(Cells)[row][col] == 0 && num != 0 ==> Valid()
    {
      if Valid() && Cells[row][col] == 0 && num != 0 {
        TracksPlace(Cells, rows, cols, subgrids, row, col, num);
      }
      board[row, col] := num;
      Cells := Update(Cells, row, col, num);
      rows := Added(rows, row, num);
      cols := Added(cols, col, num);
      subgrids := Added(subgrids, Box(row, col), num);
    }

    /**
     * Empties (row, col) and takes num out of the cell's row, column and box
     * sets; nothing else changes. From a valid state in which the cell holds
     * num and no peer holds another copy of it, the sets still track the board.
     */
    method RemoveNumber(row: int, col: int, num: int)
      requires Shaped() && InRange(row, col)
      modifies this, board
      ensures Shaped() && Cells == Update(old(Cells), row, col, 0)
      ensures rows == Removed(old(rows), row, num) && cols == Removed(old(cols), col, num)
      ensures subgrids == Removed(old(subgrids), Box(row, col), num)
      ensures (old(Valid()) && old(Cells)[row][col] == num && num != 0 &&
               CanPlace(Update(old(Cells), row, col, 0), row, col, num)) ==> Valid()
    {
      if Valid() && Cells[row][col] == num && num != 0 && CanPlace(Update(Cells, row, col, 0), row, col, num) {
        TracksRemove(Cells, rows, cols, subgrids, row, col);
      }
      board[row, col] := 0;
      Cells := Update(Cells, row, col, 0);
      rows := Removed(rows, row, num);
      cols := Removed(cols, col, num);
      subgrids := Removed(subgrids, Box(row, col), num);
    }

    /** The first empty cell in row-major order, None when the board is full. */
    method FindEmptyCell() returns (pos: Option<(int, int)>)
      requires Shaped()
      ensures pos == FirstEmpty(Cells)
    {
      var r := 0;
      while r < Size
        invariant 0 <= r <= Size
        invariant FirstEmpty(Cells) == FirstEmptyFrom(Cells, r)
      {
        var c := 0;
        while c < Size
          invariant 0 <= c <= Size
          invariant FirstZero(Cells[r], 0) == FirstZero(Cells[r], c)
        {
          if board[r, c] == 0 {
            return Some((r, c));
          }
          c := c + 1;
        }
        r := r + 1;
      }
      return None;
    }

    /** Three set lookups; true exactly when no peer of (r, c) holds num. */
    method IsValid(r: int, c: int, num: int) returns (ok: bool)
      requires Valid() && InRange(r, c)
      ensures ok <==> CanPlace(Cells, r, c, num)
    {
      CanPlaceIffUnused(Cells, rows, cols, subgrids, r, c, num);
      ok := num !in rows[r] && num !in cols[c] && num !in subgrids[Box(r, c)];
    }

    /**
     * Backtracking search. Success leaves the grid Search computes; failure
     * leaves the board and all 27 sets exactly as they were on entry.
     */
    method Solve() returns (solved: bool)
      requires Valid()
      modifies this, board
      ensures Valid()
      ensures solved <==> Search(old(Cells)).Some?
      ensures solved ==> Cells == Search(old(Cells)).value
      ensures !solved ==> Cells == old(Cells) && rows == old(rows) && cols == old(cols) && subgrids == old(subgrids)
      decreases Zeros(Cells), 1
    {
      ghost var start, rows0, cols0, boxes0 := Cells, rows, cols, subgrids;
      var empty := FindEmptyCell();
      if empty.None? {
        return true;
      }
      var row, col := empty.value.0, empty.value.1;
      var num := 1;
      while num <= Size
        invariant 1 <= num <= Size + 1 && Shaped()
        invariant Cells == start && rows == rows0 && cols == cols0 && subgrids == boxes0
        invariant Search(start) == TryDigits(start, row, col, num)
      {
        TryDigitsStep(start, row, col, num);
        var found := TryDigit(row, col, num);
        if found {
          return true;
        }
        num := num + 1;
      }
      return false;
    }

    /**
     * One turn of solve's digit loop: if num is admissible at the empty cell
     * (row, col), place it and search on; a failed sub-search is undone by
     * removing num again, which restores the board and all 27 sets. The pause
     * between steps only paces the display and has no effect on the state.
     */
    method TryDigit(row: int, col: int, num: int) returns (found: bool)
      requires Valid() && InRange(row, col) && Cells[row][col] == 0 && 1 <= num <= Size
      modifies this, board
      ensures Valid()
      ensures found <==> CanPlace(old(Cells), row, col, num) && Search(Update(old(Cells), row, col, num)).Some?
      ensures found ==> Cells == Search(Update(old(Cells), row, col, num)).value
      ensures !found ==> Cells == old(Cells) && rows == old(rows) && cols == old(cols) && subgrids == old(subgrids)
      decreases Zeros(Cells), 0
    {
      ghost var start, rows0, cols0, boxes0 := Cells, rows, cols, subgrids;
      var ok := IsValid(row, col, num);
      found := false;
      if ok {
        PlaceRemoveRoundTrip(start, rows0, cols0, boxes0, row, col, num);
        ZerosFill(start, row, col, num);
        PlaceNumber(row, col, num);
        found := Solve();
        if !found {
          RemoveNumber(row, col, num);
        }
      }
    }

    /**
     * Runs the search and reports which outcome the user is shown. "Solved"
     * means a full board that keeps the puzzle's digits, and a correct
     * solution when the givens were proper; "no solution" means the puzzle
     * has none, and the board is left as it was.
     */
    method SolvePuzzle() returns (solved: bool)
      requires Valid()
      modifies this, board
      ensures Valid()
      ensures solved ==> Filled(Cells) && Extends(old(Cells), Cells)
      ensures solved && ProperGivens(old(Cells)) ==> Completes(old(Cells), Cells)
      ensures !solved ==> Cells == old(Cells) && forall s :: !Completes(old(Cells), s)
    {
      ghost var start := Cells;
      forall s | Completes(start, s)
        ensures Search(start).Some?
      {
        SearchComplete(start, s);
      }
      solved := Solve();
      if solved {
        SearchSound(start, Cells);
      }
    }
  }
}
