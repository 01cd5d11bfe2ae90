/** The pure helpers of the game board: counting the mines around a cell
    and checking whether the game is won. */
module Board {
  import opened Grid

  /** The board: its size, which squares hold a mine (row by row), the set
      of mine cells, and the cells the player has flagged. */
  datatype Minesweeper = Minesweeper(
    height: int, width: int, board: seq<seq<bool>>, mines: set<Cell>, minesFound: set<Cell>)
  {
    /** As built: a `height` by `width` grid whose mine squares are exactly
        the cells of `mines`. */
    ghost predicate Valid()
    {
      && |board| == height
      && (forall i :: 0 <= i < |board| ==> |board[i]| == width)
      && (forall p {:trigger p in mines} :: p in mines <==> InGrid(height, width, p) && board[p.0][p.1])
    }

    /** The number of mines among the up to eight in-grid cells around
        `cell`, not counting `cell` itself. */
    method NearbyMines(cell: Cell) returns (count: int)
      requires Valid()
      ensures count == |MarkedAround(height, width, mines, cell)|
      ensures 0 <= count <= 8
    {
      // The mines counted so far.
      ghost var seen: set<Cell> := {};
      count := 0;
      var i := cell.0 - 1;
      while i < cell.0 + 2
        invariant cell.0 - 1 <= i <= cell.0 + 2
        invariant count == |seen|
        invariant forall q {:trigger q in seen} :: q in seen <==>
          Adjacent(cell, q) && Before(q, i, cell.1 - 1) && InGrid(height, width, q) && q in mines
      {
        var j := cell.1 - 1;
        while j < cell.1 + 2
          invariant cell.1 - 1 <= j <= cell.1 + 2
          invariant count == |seen|
          invariant forall q {:trigger q in seen} :: q in seen <==>
            Adjacent(cell, q) && Before(q, i, j) && InGrid(height, width, q) && q in mines
        {
          // The cell itself is not counted.
          if (i, j) != cell && 0 <= i < height && 0 <= j < width {
            assert (i, j) in mines <==> board[i][j];
            if board[i][j] {
              assert (i, j) !in seen;
              count := count + 1;
              seen := seen + {(i, j)};
            }
          }
          j := j + 1;
        }
        i := i + 1;
      }
      AroundExactly(height, width, mines, cell, seen);
    }

    /** All mines have been flagged. */
    function Won(): bool
    {
      minesFound == mines
    }
  }

  /** The game is won exactly when the flagged cells are the mine squares of
      the grid: every mine flagged and nothing else. */
  lemma WonExactlyMines(b: Minesweeper)
    requires b.Valid()
    ensures b.Won() <==> forall p {:trigger p in b.minesFound} :: p in b.minesFound <==> InGrid(b.height, b.width, p) && b.board[p.0][p.1]
  {
    if forall p {:trigger p in b.minesFound} :: p in b.minesFound <==> InGrid(b.height, b.width, p) && b.board[p.0][p.1] {
      assert forall p {:trigger p in b.minesFound} :: p in b.minesFound <==> p in b.mines;
    }
  }
}
