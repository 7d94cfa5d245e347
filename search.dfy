/**
 * The backtracking search as a function on grid values: the empty-cell scan,
 * the count of empty cells that bounds the recursion, and the search itself,
 * with the facts the solver relies on (soundness, completeness, digit order).
 */
module SudokuSearch {
  import opened Options
  import opened SudokuGrid

  // ---------------------------------------------------------------------
  // Counting empty cells

  function CountZeros(row: seq<int>): (n: nat)
    ensures n <= |row|
    ensures n == 0 <==> forall j :: 0 <= j < |row| ==> row[j] != 0
  {
    if row == [] then 0 else (if row[0] == 0 then 1 else 0) + CountZeros(row[1..])
  }

  /** Number of empty cells of the grid: the measure that bounds the recursion of solve. */
  function Zeros(g: Grid): nat
  {
    if g == [] then 0 else CountZeros(g[0]) + Zeros(g[1..])
  }

  /** The measure reaches 0 exactly when no row has an empty cell left. */
  lemma {:induction false} ZerosNone(g: Grid)
    ensures Zeros(g) == 0 <==> forall i, j :: 0 <= i < |g| && 0 <= j < |g[i]| ==> g[i][j] != 0
  {
    if g != [] {
      ZerosNone(g[1..]);
      assert forall i :: 1 <= i < |g| ==> g[i] == g[1..][i - 1];
    }
  }

  /** On a 9x9 grid: no empty cell is counted exactly when the grid is full. */
  lemma ZerosFilled(g: Grid)
    requires IsGrid(g)
    ensures Zeros(g) == 0 <==> Filled(g)
  {
    ZerosNone(g);
  }

  lemma {:induction false} CountZerosFill(row: seq<int>, c: int, v: int)
    requires 0 <= c < |row| && row[c] == 0 && v != 0
    ensures CountZeros(row[c := v]) == CountZeros(row) - 1
  {
    if c == 0 {
      assert row[c := v][1..] == row[1..];
    } else {
      assert row[c := v][1..] == row[1..][c - 1 := v];
      CountZerosFill(row[1..], c - 1, v);
    }
  }

  lemma {:induction false} ZerosReplaceRow(g: Grid, r: int, row: seq<int>)
    requires 0 <= r < |g|
    ensures Zeros(g[r := row]) == Zeros(g) - CountZeros(g[r]) + CountZeros(row)
  {
    if r == 0 {
      assert g[r := row][1..] == g[1..];
    } else {
      assert g[r := row][1..] == g[1..][r - 1 := row];
      ZerosReplaceRow(g[1..], r - 1, row);
    }
  }

  /** Filling one empty cell with a non-zero digit leaves exactly one empty cell fewer. */
  lemma ZerosFill(g: Grid, r: int, c: int, v: int)
    requires IsGrid(g) && InRange(r, c) && g[r][c] == 0 && v != 0
    ensures Zeros(Update(g, r, c, v)) == Zeros(g) - 1
  {
    CountZerosFill(g[r], c, v);
    ZerosReplaceRow(g, r, g[r][c := v]);
  }

  // ---------------------------------------------------------------------
  // The row-major scan for an empty cell

  /** Cell (i, j) comes before cell (r, c) in row-major order. */
  predicate Before(i: int, j: int, r: int, c: int) {
    i < r || (i == r && j < c)
  }

  /** Index of the first 0 of row at or after column from. */
  function FirstZero(row: seq<int>, from: nat): (k: Option<int>)
    requires from <= |row|
    ensures k.Some? ==> from <= k.value < |row| && row[k.value] == 0
    decreases |row| - from
  {
    if from == |row| then None
    else if row[from] == 0 then Some(from)
    else FirstZero(row, from + 1)
  }

  /** No 0 is skipped: every entry before the one found, or every entry when none is found, is non-zero. */
  lemma {:induction false} FirstZeroSkipsNone(row: seq<int>, from: nat)
    requires from <= |row|
    ensures var k := FirstZero(row, from);
            (k.Some? ==> forall j :: from <= j < k.value ==> row[j] != 0) &&
            (k.None? ==> forall j :: from <= j < |row| ==> row[j] != 0)
    decreases |row| - from
  {
    if from < |row| && row[from] != 0 {
      FirstZeroSkipsNone(row, from + 1);
    }
  }

  /** The first empty cell in row-major order among rows from..8. */
  function FirstEmptyFrom(g: Grid, from: nat): (p: Option<(int, int)>)
    requires IsGrid(g) && from <= Size
    ensures p.Some? ==> from <= p.value.0 && InRange(p.value.0, p.value.1) && g[p.value.0][p.value.1] == 0
    decreases Size - from
  {
    if from == Size then None
    else
      match FirstZero(g[from], 0)
      case Some(c) => Some((from, c))
      case None => FirstEmptyFrom(g, from + 1)
  }

  /** Every cell of rows from..8 before the one found, or every such cell when none is found, is non-empty. */
  lemma {:induction false} FirstEmptyFromSkipsNone(g: Grid, from: nat)
    requires IsGrid(g) && from <= Size
    ensures var p := FirstEmptyFrom(g, from);
            (p.Some? ==> forall i, j :: from <= i < Size && 0 <= j < Size && Before(i, j, p.value.0, p.value.1) ==> g[i][j] != 0) &&
            (p.None? ==> forall i, j :: from <= i < Size && 0 <= j < Size ==> g[i][j] != 0)
    decreases Size - from
  {
    if from < Size {
      FirstZeroSkipsNone(g[from], 0);
      if FirstZero(g[from], 0).None? {
        FirstEmptyFromSkipsNone(g, from + 1);
      }
    }
  }

  /** The cell findEmptyCell returns: the first empty cell in row-major order, or None. */
  function FirstEmpty(g: Grid): (p: Option<(int, int)>)
    requires IsGrid(g)
    ensures p.Some? ==> InRange(p.value.0, p.value.1) && g[p.value.0][p.value.1] == 0
  {
    FirstEmptyFrom(g, 0)
  }

  /**
   * The scan is exact: every cell before the one found is filled, and None
   * is returned exactly when no cell is empty.
   */
  lemma FirstEmptyIsFirst(g: Grid)
    requires IsGrid(g)
    ensures var p := FirstEmpty(g);
            (p.Some? ==> forall i, j :: 0 <= i < Size && 0 <= j < Size && Before(i, j, p.value.0, p.value.1) ==> g[i][j] != 0) &&
            (p.None? <==> Filled(g))
  {
    FirstEmptyFromSkipsNone(g, 0);
  }

  // ---------------------------------------------------------------------
  // The search

  /**
   * What solve computes from a grid: the grid it leaves on success, None when
   * it reports that no solution exists. A full grid is returned as it is;
   * otherwise the first empty cell is tried with the digits 1..9 in turn.
   */
  function Search(g: Grid): Option<Grid>
    requires IsGrid(g)
    decreases Zeros(g), Size + 1
  {
    match FirstEmpty(g)
    case None => Some(g)
    case Some((r, c)) => TryDigits(g, r, c, 1)
  }

  /** The loop of solve over num = from..9 at the empty cell (r, c). */
  function TryDigits(g: Grid, r: int, c: int, from: int): Option<Grid>
    requires IsGrid(g) && InRange(r, c) && g[r][c] == 0 && 1 <= from <= Size + 1
    decreases Zeros(g), Size + 1 - from
  {
    if from > Size then None
    else if CanPlace(g, r, c, from) then
      ZerosFill(g, r, c, from);
      var found := Search(Update(g, r, c, from));
      if found.Some? then found else TryDigits(g, r, c, from + 1)
    else TryDigits(g, r, c, from + 1)
  }

  /** One turn of the digit loop: either the sub-search for `from` succeeded, or the loop moves on. */
  lemma TryDigitsStep(g: Grid, r: int, c: int, from: int)
    requires IsGrid(g) && InRange(r, c) && g[r][c] == 0 && 1 <= from <= Size
    ensures var found := Search(Update(g, r, c, from));
            TryDigits(g, r, c, from) ==
              if CanPlace(g, r, c, from) && found.Some? then found else TryDigits(g, r, c, from + 1)
  {
  }

  /**
   * A success of the digit loop from `from` on comes from one digit d >= from
   * that was admissible at (r, c) and whose sub-search produced the result.
   */
  lemma {:induction false} TryDigitsPick(g: Grid, r: int, c: int, from: int, s: Grid) returns (d: int)
    requires IsGrid(g) && InRange(r, c) && g[r][c] == 0 && 1 <= from <= Size
    requires TryDigits(g, r, c, from) == Some(s)
    ensures from <= d <= Size && CanPlace(g, r, c, d)
    ensures Search(Update(g, r, c, d)) == Some(s)
    decreases Size + 1 - from
  {
    TryDigitsStep(g, r, c, from);
    if CanPlace(g, r, c, from) && Search(Update(g, r, c, from)).Some? {
      d := from;
    } else {
      d := TryDigitsPick(g, r, c, from + 1, s);
    }
  }

  /**
   * Soundness: a grid the search returns is full and keeps every placed digit
   * of its input; when the givens were proper it is a solution of them.
   */
  lemma {:induction false} SearchSound(g: Grid, s: Grid)
    requires IsGrid(g) && Search(g) == Some(s)
    ensures IsGrid(s) && Filled(s) && Extends(g, s)
    ensures ProperGivens(g) ==> IsSolution(s)
    decreases Zeros(g)
  {
    FirstEmptyIsFirst(g);
    match FirstEmpty(g)
    case None =>
    case Some((r, c)) =>
      var d := TryDigitsPick(g, r, c, 1, s);
      ZerosFill(g, r, c, d);
      SearchSound(Update(g, r, c, d), s);
      PlacedExtends(g, r, c, d, s);
      if ProperGivens(g) {
        PlaceKeepsProper(g, r, c, d);
      }
  }

  /** The digit loop from `from` on succeeds once some digit d >= from is admissible and its sub-search succeeds. */
  lemma {:induction false} TryDigitsReaches(g: Grid, r: int, c: int, from: int, d: int)
    requires IsGrid(g) && InRange(r, c) && g[r][c] == 0 && 1 <= from <= d <= Size
    requires CanPlace(g, r, c, d) && Search(Update(g, r, c, d)).Some?
    ensures TryDigits(g, r, c, from).Some?
    decreases d - from
  {
    TryDigitsStep(g, r, c, from);
    if from < d {
      TryDigitsReaches(g, r, c, from + 1, d);
    }
  }

  /** Completeness: if the grid has a solution, the search finds one. */
  lemma {:induction false} SearchComplete(g: Grid, s: Grid)
    requires IsGrid(g) && Completes(g, s)
    ensures Search(g).Some?
    decreases Zeros(g)
  {
    match FirstEmpty(g)
    case None =>
    case Some((r, c)) =>
      var d := s[r][c];
      CompletionAdmitted(g, s, r, c);
      CompletesPlaced(g, s, r, c);
      ZerosFill(g, r, c, d);
      SearchComplete(Update(g, r, c, d), s);
      TryDigitsReaches(g, r, c, 1, d);
  }

  /**
   * The digit the loop from `from` on leaves in (r, c) is at least `from`,
   * admissible there, and its sub-search is what produced the result.
   */
  lemma TryDigitsFirst(g: Grid, r: int, c: int, from: int, s: Grid)
    requires IsGrid(g) && InRange(r, c) && g[r][c] == 0 && 1 <= from <= Size
    requires TryDigits(g, r, c, from) == Some(s)
    ensures IsGrid(s) && from <= s[r][c] <= Size && CanPlace(g, r, c, s[r][c])
    ensures Search(Update(g, r, c, s[r][c])) == Some(s)
  {
    var d := TryDigitsPick(g, r, c, from, s);
    SearchSound(Update(g, r, c, d), s);
    PlacedExtends(g, r, c, d, s);
  }

  /**
   * Digit order: every admissible digit d below the one the loop keeps was
   * tried first, and its sub-search failed (so it was undone).
   */
  lemma {:induction false} EarlierDigitsFail(g: Grid, r: int, c: int, from: int, s: Grid, d: int)
    requires IsGrid(g) && InRange(r, c) && g[r][c] == 0 && 1 <= from <= Size
    requires TryDigits(g, r, c, from) == Some(s) && IsGrid(s)
    requires from <= d < s[r][c] && CanPlace(g, r, c, d)
    ensures Search(Update(g, r, c, d)).None?
    decreases Size + 1 - from
  {
    TryDigitsStep(g, r, c, from);
    if CanPlace(g, r, c, from) && Search(Update(g, r, c, from)).Some? {
      SearchSound(Update(g, r, c, from), s);
      PlacedExtends(g, r, c, from, s);
    } else if d != from {
      EarlierDigitsFail(g, r, c, from + 1, s, d);
    }
  }

  /** A grid with no empty cell is returned unchanged, whatever its digits. */
  lemma FullGridReturned(g: Grid)
    requires IsGrid(g) && Filled(g)
    ensures Search(g) == Some(g)
  {
  }

  /**
   * solve does not look at the givens: a full grid of 1s, with the same digit
   * repeated in every row, column and box, is reported as solved.
   */
  lemma RepeatedGivensReportedSolved()
    ensures var ones := seq(Size, _ => seq(Size, _ => 1));
            IsGrid(ones) && !NoConflicts(ones) && Search(ones) == Some(ones)
  {
    var ones := seq(Size, _ => seq(Size, _ => 1));
    assert Peers(0, 0, 0, 1) && ones[0][0] == ones[0][1];
    FullGridReturned(ones);
  }
}
