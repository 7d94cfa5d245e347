/**
 * The 9x9 Sudoku grid as a value, the three families of "used digit" sets
 * (one per row, column and 3x3 box) and how placing or removing a digit
 * changes them.
 */
module SudokuGrid {

  /** Side of the board, and the largest digit (SIZE in the solver). */
  const Size := 9

  /** A grid of digits, row by row; 0 marks an empty cell. */
  type Grid = seq<seq<int>>

  predicate InRange(r: int, c: int) {
    0 <= r < Size && 0 <= c < Size
  }

  predicate IsGrid(g: Grid) {
    |g| == Size && forall r :: 0 <= r < Size ==> |g[r]| == Size
  }

  /** The grid with no digit placed. */
  function Blank(): (g: Grid)
    ensures IsGrid(g)
    ensures forall r, c :: InRange(r, c) ==> g[r][c] == 0
  {
    var empty := [0, 0, 0, 0, 0, 0, 0, 0, 0];
    [empty, empty, empty, empty, empty, empty, empty, empty, empty]
  }

  /** Nine empty digit sets, one per row, column or box. */
  function NoDigits(): (sets: seq<set<int>>)
    ensures |sets| == Size
    ensures forall i :: 0 <= i < Size ==> sets[i] == {}
  {
    [{}, {}, {}, {}, {}, {}, {}, {}, {}]
  }

  /**
   * Index of the 3x3 box holding cell (r, c), counted row-major over the
   * boxes: the quotient by 3 is the box's row of boxes, the remainder its
   * column of boxes.
   */
  function Box(r: int, c: int): (b: int)
    requires InRange(r, c)
    ensures 0 <= b < Size
    ensures b == (r / 3) * 3 + c / 3
  {
    Third(r) * 3 + Third(c)
  }

  /** Which third of the board index x (0 .. 8) falls in: x / 3, by comparison. */
  function Third(x: int): (t: int)
    requires 0 <= x < Size
    ensures t == x / 3
  {
    if x < 3 then 0 else if x < 6 then 1 else 2
  }

  /** Two cells get the same box index exactly when they lie in the same 3x3 block. */
  lemma SameBox(r1: int, c1: int, r2: int, c2: int)
    requires InRange(r1, c1) && InRange(r2, c2)
    ensures Box(r1, c1) == Box(r2, c2) <==> r1 / 3 == r2 / 3 && c1 / 3 == c2 / 3
  {
  }

  /** Cells that must not hold the same digit: same row, same column or same box. */
  predicate Peers(r1: int, c1: int, r2: int, c2: int)
    requires InRange(r1, c1) && InRange(r2, c2)
  {
    r1 == r2 || c1 == c2 || Box(r1, c1) == Box(r2, c2)
  }

  /** The grid after writing v into cell (r, c). */
  function Update(g: Grid, r: int, c: int, v: int): (u: Grid)
    requires IsGrid(g) && InRange(r, c)
    ensures IsGrid(u) && u[r][c] == v
    ensures forall i, j {:trigger u[i][j]} :: InRange(i, j) && (i != r || j != c) ==> u[i][j] == g[i][j]
  {
    g[r := g[r][c := v]]
  }

  /** Two grids with the same cells are the same grid. */
  lemma SameCells(a: Grid, b: Grid)
    requires IsGrid(a) && IsGrid(b)
    requires forall i, j :: InRange(i, j) ==> a[i][j] == b[i][j]
    ensures a == b
  {
    forall i | 0 <= i < Size
      ensures a[i] == b[i]
    {
      assert forall j :: 0 <= j < Size ==> a[i][j] == b[i][j];
    }
  }

  /** Writing a digit into an empty cell and then clearing it gives back the grid. */
  lemma UpdateUndo(g: Grid, r: int, c: int, v: int)
    requires IsGrid(g) && InRange(r, c) && g[r][c] == 0
    ensures Update(Update(g, r, c, v), r, c, 0) == g
  {
    SameCells(Update(Update(g, r, c, v), r, c, 0), g);
  }

  // ---------------------------------------------------------------------
  // Units and the digits they hold

  /** A row, a column or a 3x3 box, each numbered 0..8. */
  datatype Unit = Row(i: int) | Col(i: int) | Block(i: int)

  predicate InUnit(t: Unit, r: int, c: int)
    requires InRange(r, c)
  {
    match t
    case Row(i) => r == i
    case Col(i) => c == i
    case Block(i) => Box(r, c) == i
  }

  /** Two cells of one unit are peers. */
  lemma UnitPeers(t: Unit, r1: int, c1: int, r2: int, c2: int)
    requires InRange(r1, c1) && InRange(r2, c2)
    requires InUnit(t, r1, c1) && InUnit(t, r2, c2)
    ensures Peers(r1, c1, r2, c2)
  {
  }

  /** The non-zero digits placed in the cells of unit t. */
  function Digits(g: Grid, t: Unit): set<int>
    requires IsGrid(g)
  {
    set i, j | 0 <= i < Size && 0 <= j < Size && InUnit(t, i, j) && g[i][j] != 0 :: g[i][j]
  }

  /**
   * The used-digit sets agree with the grid: rows[i], cols[i] and boxes[i]
   * hold exactly the non-zero digits of row i, column i and box i.
   */
  ghost predicate Tracks(g: Grid, rows: seq<set<int>>, cols: seq<set<int>>, boxes: seq<set<int>>)
    requires IsGrid(g)
  {
    |rows| == Size && |cols| == Size && |boxes| == Size &&
    forall i :: 0 <= i < Size ==>
      rows[i] == Digits(g, Row(i)) && cols[i] == Digits(g, Col(i)) && boxes[i] == Digits(g, Block(i))
  }

  /** The set family with v added to set k, as HashSet.add does. */
  function Added(sets: seq<set<int>>, k: int, v: int): seq<set<int>>
    requires 0 <= k < |sets|
  {
    sets[k := sets[k] + {v}]
  }

  /** The set family with v taken out of set k, as HashSet.remove does. */
  function Removed(sets: seq<set<int>>, k: int, v: int): seq<set<int>>
    requires 0 <= k < |sets|
  {
    sets[k := sets[k] - {v}]
  }

  /** The empty grid is tracked by empty sets. */
  lemma BlankTracks()
    ensures Tracks(Blank(), NoDigits(), NoDigits(), NoDigits())
  {
    var g := Blank();
    forall t: Unit
      ensures Digits(g, t) == {}
    {
      assert forall i, j :: 0 <= i < Size && 0 <= j < Size ==> g[i][j] == 0;
    }
  }

  /**
   * No placed digit among the peers of (r, c) equals v: the condition under
   * which the solver may write v there.
   */
  predicate CanPlace(g: Grid, r: int, c: int, v: int)
    requires IsGrid(g) && InRange(r, c)
  {
    forall i, j {:trigger Peers(r, c, i, j)} :: 0 <= i < Size && 0 <= j < Size && Peers(r, c, i, j) && g[i][j] != 0 ==> g[i][j] != v
  }

  /**
   * When the sets track the grid, the three set lookups decide CanPlace:
   * v may go into (r, c) exactly when it is in none of the row, column and box sets.
   */
  lemma CanPlaceIffUnused(g: Grid, rows: seq<set<int>>, cols: seq<set<int>>, boxes: seq<set<int>>,
                          r: int, c: int, v: int)
    requires IsGrid(g) && InRange(r, c) && Tracks(g, rows, cols, boxes)
    ensures CanPlace(g, r, c, v) <==> v !in rows[r] && v !in cols[c] && v !in boxes[Box(r, c)]
  {
    if !CanPlace(g, r, c, v) {
      var i, j :| 0 <= i < Size && 0 <= j < Size && Peers(r, c, i, j) && g[i][j] != 0 && g[i][j] == v;
      if i == r {
        assert InUnit(Row(r), i, j);
      } else if j == c {
        assert InUnit(Col(c), i, j);
      } else {
        assert InUnit(Block(Box(r, c)), i, j);
      }
    }
    forall t | t in [Row(r), Col(c), Block(Box(r, c))] && v in Digits(g, t)
      ensures !CanPlace(g, r, c, v)
    {
      var i, j :| 0 <= i < Size && 0 <= j < Size && InUnit(t, i, j) && g[i][j] != 0 && g[i][j] == v;
      assert InUnit(t, r, c);
      UnitPeers(t, r, c, i, j);
    }
  }

  /** Writing a non-zero v into an empty cell adds v to the digits of each unit holding the cell. */
  lemma DigitsPlace(g: Grid, r: int, c: int, v: int, t: Unit)
    requires IsGrid(g) && InRange(r, c) && g[r][c] == 0 && v != 0
    ensures Digits(Update(g, r, c, v), t) == Digits(g, t) + (if InUnit(t, r, c) then {v} else {})
  {
    var u := Update(g, r, c, v);
    var extra: set<int> := if InUnit(t, r, c) then {v} else {};
    forall x | x in Digits(u, t)
      ensures x in Digits(g, t) + extra
    {
      var i, j :| 0 <= i < Size && 0 <= j < Size && InUnit(t, i, j) && u[i][j] != 0 && u[i][j] == x;
      if i != r || j != c {
        assert g[i][j] == x;
      }
    }
    forall x | x in Digits(g, t) + extra
      ensures x in Digits(u, t)
    {
      if x in Digits(g, t) {
        var i, j :| 0 <= i < Size && 0 <= j < Size && InUnit(t, i, j) && g[i][j] != 0 && g[i][j] == x;
        assert u[i][j] == x;
      } else {
        assert u[r][c] == x;
      }
    }
  }

  /**
   * Clearing cell (r, c) whose digit w occurs in no other peer cell removes w
   * from the digits of each unit holding the cell.
   */
  lemma DigitsRemove(g: Grid, r: int, c: int, t: Unit)
    requires IsGrid(g) && InRange(r, c) && g[r][c] != 0
    requires CanPlace(Update(g, r, c, 0), r, c, g[r][c])
    ensures Digits(Update(g, r, c, 0), t) == Digits(g, t) - (if InUnit(t, r, c) then {g[r][c]} else {})
  {
    var u := Update(g, r, c, 0);
    var w := g[r][c];
    var gone: set<int> := if InUnit(t, r, c) then {w} else {};
    forall x | x in Digits(u, t)
      ensures x in Digits(g, t) - gone
    {
      var i, j :| 0 <= i < Size && 0 <= j < Size && InUnit(t, i, j) && u[i][j] != 0 && u[i][j] == x;
      assert g[i][j] == x;
      if InUnit(t, r, c) {
        UnitPeers(t, r, c, i, j);
      }
    }
    forall x | x in Digits(g, t) - gone
      ensures x in Digits(u, t)
    {
      var i, j :| 0 <= i < Size && 0 <= j < Size && InUnit(t, i, j) && g[i][j] != 0 && g[i][j] == x;
      assert u[i][j] == x;
    }
  }

  /** Placing a non-zero digit into an empty cell and adding it to its three sets keeps the sets tracking the grid. */
  lemma TracksPlace(g: Grid, rows: seq<set<int>>, cols: seq<set<int>>, boxes: seq<set<int>>,
                    r: int, c: int, v: int)
    requires IsGrid(g) && InRange(r, c) && Tracks(g, rows, cols, boxes)
    requires g[r][c] == 0 && v != 0
    ensures Tracks(Update(g, r, c, v), Added(rows, r, v), Added(cols, c, v), Added(boxes, Box(r, c), v))
  {
    forall i | 0 <= i < Size
      ensures Added(rows, r, v)[i] == Digits(Update(g, r, c, v), Row(i))
      ensures Added(cols, c, v)[i] == Digits(Update(g, r, c, v), Col(i))
      ensures Added(boxes, Box(r, c), v)[i] == Digits(Update(g, r, c, v), Block(i))
    {
      DigitsPlace(g, r, c, v, Row(i));
      DigitsPlace(g, r, c, v, Col(i));
      DigitsPlace(g, r, c, v, Block(i));
    }
  }

  /**
   * Clearing a cell whose digit has no other copy among its peers, and taking
   * that digit out of its three sets, keeps the sets tracking the grid.
   */
  lemma TracksRemove(g: Grid, rows: seq<set<int>>, cols: seq<set<int>>, boxes: seq<set<int>>,
                     r: int, c: int)
    requires IsGrid(g) && InRange(r, c) && Tracks(g, rows, cols, boxes)
    requires g[r][c] != 0 && CanPlace(Update(g, r, c, 0), r, c, g[r][c])
    ensures Tracks(Update(g, r, c, 0), Removed(rows, r, g[r][c]), Removed(cols, c, g[r][c]),
                   Removed(boxes, Box(r, c), g[r][c]))
  {
    var w := g[r][c];
    forall i | 0 <= i < Size
      ensures Removed(rows, r, w)[i] == Digits(Update(g, r, c, 0), Row(i))
      ensures Removed(cols, c, w)[i] == Digits(Update(g, r, c, 0), Col(i))
      ensures Removed(boxes, Box(r, c), w)[i] == Digits(Update(g, r, c, 0), Block(i))
    {
      DigitsRemove(g, r, c, Row(i));
      DigitsRemove(g, r, c, Col(i));
      DigitsRemove(g, r, c, Block(i));
    }
  }

  /**
   * Backtracking undo: placing an admissible digit into an empty cell and then
   * removing it restores the grid and all 27 sets exactly.
   */
  lemma PlaceRemoveRoundTrip(g: Grid, rows: seq<set<int>>, cols: seq<set<int>>, boxes: seq<set<int>>,
                             r: int, c: int, v: int)
    requires IsGrid(g) && InRange(r, c) && Tracks(g, rows, cols, boxes)
    requires g[r][c] == 0 && CanPlace(g, r, c, v)
    ensures Update(Update(g, r, c, v), r, c, 0) == g
    ensures Removed(Added(rows, r, v), r, v) == rows
    ensures Removed(Added(cols, c, v), c, v) == cols
    ensures Removed(Added(boxes, Box(r, c), v), Box(r, c), v) == boxes
  {
    UpdateUndo(g, r, c, v);
    CanPlaceIffUnused(g, rows, cols, boxes, r, c, v);
    assert rows[r] + {v} - {v} == rows[r];
    assert cols[c] + {v} - {v} == cols[c];
    assert boxes[Box(r, c)] + {v} - {v} == boxes[Box(r, c)];
  }

  // ---------------------------------------------------------------------
  // Solutions

  /** No digit repeats among the placed cells of any row, column or box. */
  predicate NoConflicts(g: Grid)
    requires IsGrid(g)
  {
    forall r1, c1, r2, c2 ::
      (0 <= r1 < Size && 0 <= c1 < Size && 0 <= r2 < Size && 0 <= c2 < Size &&
       (r1 != r2 || c1 != c2) && Peers(r1, c1, r2, c2) && g[r1][c1] != 0) ==> g[r1][c1] != g[r2][c2]
  }

  /** Every cell holds a digit 0..9. */
  predicate DigitsInRange(g: Grid)
    requires IsGrid(g)
  {
    forall r, c :: 0 <= r < Size && 0 <= c < Size ==> 0 <= g[r][c] <= Size
  }

  /** A puzzle whose givens are digits and pairwise distinct within every row, column and box. */
  predicate ProperGivens(g: Grid) {
    IsGrid(g) && DigitsInRange(g) && NoConflicts(g)
  }

  /** No cell is empty. */
  predicate Filled(g: Grid)
    requires IsGrid(g)
  {
    forall r, c :: 0 <= r < Size && 0 <= c < Size ==> g[r][c] != 0
  }

  /** A completely and correctly filled grid. */
  predicate IsSolution(s: Grid) {
    ProperGivens(s) && Filled(s)
  }

  /** s keeps every digit placed in g. */
  predicate Extends(g: Grid, s: Grid)
    requires IsGrid(g) && IsGrid(s)
  {
    forall r, c :: 0 <= r < Size && 0 <= c < Size && g[r][c] != 0 ==> s[r][c] == g[r][c]
  }

  /** s is a solution of the puzzle g. */
  predicate Completes(g: Grid, s: Grid) {
    IsGrid(g) && IsSolution(s) && Extends(g, s)
  }

  /** Writing an admissible digit 1..9 into an empty cell of a proper puzzle keeps it proper. */
  lemma PlaceKeepsProper(g: Grid, r: int, c: int, v: int)
    requires ProperGivens(g) && InRange(r, c) && g[r][c] == 0
    requires 1 <= v <= Size && CanPlace(g, r, c, v)
    ensures ProperGivens(Update(g, r, c, v))
  {
    var u := Update(g, r, c, v);
    forall r1, c1, r2, c2 |
      0 <= r1 < Size && 0 <= c1 < Size && 0 <= r2 < Size && 0 <= c2 < Size &&
      (r1 != r2 || c1 != c2) && Peers(r1, c1, r2, c2) && u[r1][c1] != 0
      ensures u[r1][c1] != u[r2][c2]
    {
      if r2 == r && c2 == c {
        assert g[r1][c1] == u[r1][c1];
        assert Peers(r, c, r1, c1);
      }
    }
  }

  /** A solution of g carries, in each empty cell of g, a digit g admits there. */
  lemma CompletionAdmitted(g: Grid, s: Grid, r: int, c: int)
    requires Completes(g, s) && InRange(r, c) && g[r][c] == 0
    ensures CanPlace(g, r, c, s[r][c])
  {
    forall i, j | 0 <= i < Size && 0 <= j < Size && Peers(r, c, i, j) && g[i][j] != 0
      ensures g[i][j] != s[r][c]
    {
      assert s[i][j] == g[i][j];
    }
  }

  /** A grid extending g with a digit v written into the empty cell (r, c) extends g and has v there. */
  lemma PlacedExtends(g: Grid, r: int, c: int, v: int, s: Grid)
    requires IsGrid(g) && InRange(r, c) && g[r][c] == 0 && v != 0
    requires IsGrid(s) && Extends(Update(g, r, c, v), s)
    ensures Extends(g, s) && s[r][c] == v
  {
    var u := Update(g, r, c, v);
    assert u[r][c] == v;
    forall i, j | 0 <= i < Size && 0 <= j < Size && g[i][j] != 0
      ensures s[i][j] == g[i][j]
    {
      assert u[i][j] == g[i][j];
    }
  }

  /** A solution of g that has v at the empty cell (r, c) is a solution of g with v written there. */
  lemma CompletesPlaced(g: Grid, s: Grid, r: int, c: int)
    requires Completes(g, s) && InRange(r, c) && g[r][c] == 0
    ensures Completes(Update(g, r, c, s[r][c]), s)
  {
    var u := Update(g, r, c, s[r][c]);
    forall i, j | 0 <= i < Size && 0 <= j < Size && u[i][j] != 0
      ensures s[i][j] == u[i][j]
    {
      if i != r || j != c {
        assert u[i][j] == g[i][j];
      }
    }
  }
}
