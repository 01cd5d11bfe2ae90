/** Cells of the Minesweeper grid and the neighbourhood relation shared by
    the board and the player. */
module Grid {

  /** A cell is a (row, column) pair. */
  type Cell = (int, int)

  datatype Option<T> = None | Some(value: T)

  /** `p` lies inside a grid of the given height and width. */
  predicate InGrid(height: int, width: int, p: Cell)
  {
    0 <= p.0 < height && 0 <= p.1 < width
  }

  /** `p` is within one row and one column of `cell`, and is not `cell` itself. */
  predicate Adjacent(cell: Cell, p: Cell)
  {
    p != cell && cell.0 - 1 <= p.0 <= cell.0 + 1 && cell.1 - 1 <= p.1 <= cell.1 + 1
  }

  /** The (up to) eight cells around `cell`, ignoring the grid bounds. */
  function Neighbours(cell: Cell): (r: set<Cell>)
    ensures forall p {:trigger p in r} :: p in r <==> Adjacent(cell, p)
    ensures |r| == 8
  {
    var (i, j) := cell;
    var r := {(i - 1, j - 1), (i - 1, j), (i - 1, j + 1),
              (i, j - 1),                 (i, j + 1),
              (i + 1, j - 1), (i + 1, j), (i + 1, j + 1)};
    assert forall p :: Adjacent(cell, p) ==> p in r by {
      forall p | Adjacent(cell, p) ensures p in r {
        assert p.0 == i - 1 || p.0 == i || p.0 == i + 1;
        assert p.1 == j - 1 || p.1 == j || p.1 == j + 1;
      }
    }
    r
  }

  /** The in-grid neighbours of `cell` that belong to `marked`. */
  function MarkedAround(height: int, width: int, marked: set<Cell>, cell: Cell): (r: set<Cell>)
    ensures forall p {:trigger p in r} :: p in r <==> Adjacent(cell, p) && InGrid(height, width, p) && p in marked
    ensures |r| <= 8
  {
    var r := set p | p in Neighbours(cell) && InGrid(height, width, p) && p in marked;
    SubsetCard(r, Neighbours(cell));
    r
  }

  /** A subset is no larger than its superset. */
  lemma SubsetCard<T>(a: set<T>, b: set<T>)
    requires a <= b
    ensures |a| <= |b|
  {
    assert b == a + (b - a);
  }

  /** `p` comes strictly before row `i`, column `j` in row-major order. */
  predicate Before(p: Cell, i: int, j: int)
  {
    p.0 < i || (p.0 == i && p.1 < j)
  }

  /** A scan of the three-by-three square around `cell` that has found
      exactly the neighbours of `cell` that lie in the grid and belong to
      `marked` has found `MarkedAround(height, width, marked, cell)`. */
  lemma AroundExactly(height: int, width: int, marked: set<Cell>, cell: Cell, seen: set<Cell>)
    requires forall q {:trigger q in seen} :: q in seen <==>
      Adjacent(cell, q) && Before(q, cell.0 + 2, cell.1 - 1) && InGrid(height, width, q) && q in marked
    ensures seen == MarkedAround(height, width, marked, cell)
  {
  }
}
