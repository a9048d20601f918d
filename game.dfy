/** The Minesweeper board: a fixed grid of mined and free cells, and the
    cells the player has flagged so far. */
module Game {
  import opened Python
  import SetFacts

  /** A cell `(i, j)`: row `i`, column `j`. */
  type Cell = (int, int)

  /** The cells of a `rows` x `cols` grid that touch `cell`: the 3 x 3 box
      around it, without the cell itself and without positions off the
      grid. */
  function Around(cell: Cell, rows: int, cols: int): set<Cell> {
    set i, j | cell.0 - 1 <= i <= cell.0 + 1 && cell.1 - 1 <= j <= cell.1 + 1
               && (i, j) != cell && 0 <= i < rows && 0 <= j < cols :: (i, j)
  }

  lemma AroundMember(cell: Cell, rows: int, cols: int, i: int, j: int)
    ensures (i, j) in Around(cell, rows, cols) <==>
              cell.0 - 1 <= i <= cell.0 + 1 && cell.1 - 1 <= j <= cell.1 + 1
              && (i, j) != cell && 0 <= i < rows && 0 <= j < cols
  {
  }

  /** A cell has at most eight neighbours. */
  lemma {:induction false} AroundAtMostEight(cell: Cell, rows: int, cols: int)
    ensures |Around(cell, rows, cols)| <= 8
  {
    var (x, y) := cell;
    var box := {(x - 1, y - 1), (x - 1, y), (x - 1, y + 1),
                (x, y - 1), (x, y + 1),
                (x + 1, y - 1), (x + 1, y), (x + 1, y + 1)};
    forall c | c in Around(cell, rows, cols) ensures c in box {
      assert c == (c.0, c.1);
    }
    SetFacts.SubsetSize(Around(cell, rows, cols), box);
  }

  class Minesweeper {
    const height: nat
    const width: nat
    /** The mined cells. */
    const mines: set<Cell>
    /** `board[i][j]` is true exactly when `(i, j)` is mined. */
    const board: seq<seq<bool>>
    /** The cells the player has flagged. */
    var minesFound: set<Cell>

    /** The grid has `height` rows of `width` cells and agrees with
        `mines`, which lie on the grid. */
    ghost predicate Valid() {
      && |board| == height
      && (forall i | 0 <= i < height :: |board[i]| == width)
      && (forall i, j | 0 <= i < height && 0 <= j < width :: board[i][j] <==> (i, j) in mines)
      && forall c | c in mines :: 0 <= c.0 < height && 0 <= c.1 < width
    }

    /** A board with the given mines; none is flagged yet. */
    constructor (height: nat, width: nat, mines: set<Cell>)
      requires forall c | c in mines :: 0 <= c.0 < height && 0 <= c.1 < width
      ensures Valid()
      ensures this.height == height && this.width == width && this.mines == mines
      ensures minesFound == {}
    {
      this.height := height;
      this.width := width;
      this.mines := mines;
      this.board := seq(height, i => seq(width, j => (i, j) in mines));
      minesFound := {};
    }

    /** Whether `cell` is mined. The lookup is Python list indexing, so a
        negative coordinate counts from the end of its row or of the
        board, and any other coordinate off the grid raises IndexError. */
    function IsMine(cell: Cell): (r: Result<bool>)
      requires Valid()
      ensures r.Ok? <==> ListIndex(cell.0, height).Some? && ListIndex(cell.1, width).Some?
      ensures r.Ok? ==>
                (r.value <==> (ListIndex(cell.0, height).value, ListIndex(cell.1, width).value) in mines)
      ensures 0 <= cell.0 < height && 0 <= cell.1 < width ==> r == Ok(cell in mines)
    {
      match ListIndex(cell.0, |board|)
      case None => Raise(IndexError)
      case Some(i) =>
        match ListIndex(cell.1, |board[i]|)
        case None => Raise(IndexError)
        case Some(j) => Ok(board[i][j])
    }

    /** The mined neighbours of `cell` whose position comes before `(i, j)`
        in the order the scan of NearbyMines visits them. */
    ghost function ScannedMines(cell: Cell, i: int, j: int): set<Cell> {
      set c | c in Around(cell, height, width) && c in mines && (c.0 < i || (c.0 == i && c.1 < j))
    }

    /** Scanning position `(i, j)` of the box around `cell` adds one to
        the count of scanned mines exactly when it is a mined cell of the
        grid other than `cell`. */
    lemma ScanStep(cell: Cell, i: int, j: int)
      requires Valid()
      requires cell.0 - 1 <= i <= cell.0 + 1 && cell.1 - 1 <= j <= cell.1 + 1
      ensures |ScannedMines(cell, i, j + 1)| ==
                |ScannedMines(cell, i, j)| + (if (i, j) != cell && 0 <= i < height && 0 <= j < width && board[i][j] then 1 else 0)
    {
      var added := if (i, j) in Around(cell, height, width) && (i, j) in mines then {(i, j)} else {};
      forall c | c in ScannedMines(cell, i, j + 1) && c !in ScannedMines(cell, i, j)
        ensures c == (i, j)
      {
        assert c == (c.0, c.1);
      }
      assert ScannedMines(cell, i, j + 1) == ScannedMines(cell, i, j) + added;
      AroundMember(cell, height, width, i, j);
    }

    /** Past the last column of the box, the scan moves to the next row. */
    lemma ScanNextRow(cell: Cell, i: int)
      ensures ScannedMines(cell, i, cell.1 + 2) == ScannedMines(cell, i + 1, cell.1 - 1)
    {
    }

    /** Past the last row of the box, every mined neighbour is scanned. */
    lemma ScanComplete(cell: Cell)
      ensures ScannedMines(cell, cell.0 + 2, cell.1 - 1) == Around(cell, height, width) * mines
    {
    }

    /** The number of mines among the neighbours of `cell`; positions off
        the grid are skipped. */
    method NearbyMines(cell: Cell) returns (count: nat)
      requires Valid()
      ensures count == |Around(cell, height, width) * mines|
      ensures count <= 8
    {
      count := 0;
      for i := cell.0 - 1 to cell.0 + 2
        invariant count == |ScannedMines(cell, i, cell.1 - 1)|
      {
        for j := cell.1 - 1 to cell.1 + 2
          invariant count == |ScannedMines(cell, i, j)|
        {
          ScanStep(cell, i, j);
          if (i, j) == cell {
            continue;
          }
          if 0 <= i < height && 0 <= j < width {
            if board[i][j] {
              count := count + 1;
            }
          }
        }
        ScanNextRow(cell, i);
      }
      ScanComplete(cell);
      AroundAtMostEight(cell, height, width);
      SetFacts.SubsetSize(Around(cell, height, width) * mines, Around(cell, height, width));
    }

    /** True when the flagged cells are exactly the mines: every flag is on
        a mine and there are as many flags as mines. */
    predicate Won()
      reads this
      ensures Won() <==> minesFound <= mines && |minesFound| == |mines|
    {
      if minesFound <= mines && |minesFound| == |mines| then
        SetFacts.SubsetOfSameSize(minesFound, mines);
        minesFound == mines
      else
        minesFound == mines
    }
  }
}
