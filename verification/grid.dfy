/**
 * Cells of a rectangular terrain grid and the two neighbourhoods the terrain
 * queries use: the four orthogonal neighbours water flows to, and the 3x3 block
 * within which two pieces of land touch.
 */
module Grid {

  /** A cell of the grid. Two locations are the same location exactly when their
      coordinates are equal (the island count compares roots by value). */
  datatype GridLocation = GridLocation(row: int, col: int)

  /** `b` is directly up, down, left or right of `a`. */
  predicate Orthogonal(a: GridLocation, b: GridLocation)
  {
    (a.row == b.row && (a.col - b.col == 1 || b.col - a.col == 1)) ||
    (a.col == b.col && (a.row - b.row == 1 || b.row - a.row == 1))
  }

  /** `b` lies in the 3x3 block centred on `a` (`a` itself included). */
  predicate Touching(a: GridLocation, b: GridLocation)
  {
    -1 <= a.row - b.row <= 1 && -1 <= a.col - b.col <= 1
  }

  /** Cell `c` comes before position (i, j) in row-major order. */
  predicate Scanned(c: GridLocation, i: int, j: int)
  {
    c.row < i || (c.row == i && c.col < j)
  }

  /** Scanning one more position adds exactly the cell at that position. */
  lemma ScannedStep(c: GridLocation, i: int, j: int)
    ensures Scanned(c, i, j + 1) <==> Scanned(c, i, j) || c == GridLocation(i, j)
  {
  }

  /** Every cell of a `rows` x `cols` grid. */
  function Cells(rows: nat, cols: nat): (s: set<GridLocation>)
    ensures forall c {:trigger c in s} :: c in s <==> 0 <= c.row < rows && 0 <= c.col < cols
  {
    set i, j | 0 <= i < rows && 0 <= j < cols :: GridLocation(i, j)
  }

  /** The first `cols` cells of row `r`. */
  function RowCells(r: int, cols: nat): (s: set<GridLocation>)
    ensures forall c {:trigger c in s} :: c in s <==> c.row == r && 0 <= c.col < cols
  {
    set j | 0 <= j < cols :: GridLocation(r, j)
  }

  lemma {:induction false} RowCellsCount(r: int, cols: nat)
    ensures |RowCells(r, cols)| == cols
  {
    if cols > 0 {
      RowCellsCount(r, cols - 1);
      assert RowCells(r, cols) == RowCells(r, cols - 1) + {GridLocation(r, cols - 1)};
    }
  }

  /** A grid of `rows` x `cols` cells has exactly `rows * cols` of them. */
  lemma {:induction false} CellsCount(rows: nat, cols: nat)
    ensures |Cells(rows, cols)| == rows * cols
  {
    if rows > 0 {
      var above, last := Cells(rows - 1, cols), RowCells(rows - 1, cols);
      assert Cells(rows, cols) == above + last && above !! last by {
        forall c | c in Cells(rows, cols) ensures c in above || c in last {
        }
      }
      CellsCount(rows - 1, cols);
      RowCellsCount(rows - 1, cols);
      assert (rows - 1) * cols + cols == rows * cols;
    }
  }

  /** Marking more cells of `all` leaves strictly fewer unmarked. */
  lemma UnmarkedShrinks<T>(all: set<T>, before: set<T>, after: set<T>)
    requires before <= after <= all && before != after
    ensures all - after < all - before
  {
    var x :| x in after && x !in before;
    assert x in all - before;
  }

  /** A subset is no larger than the set that contains it. */
  lemma {:induction false} SubsetSize<T>(a: set<T>, b: set<T>)
    requires a <= b
    ensures |a| <= |b|
  {
    assert b == a + (b - a);
  }
}
