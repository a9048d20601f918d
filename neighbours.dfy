/** The cells of the sentence that add_knowledge builds for a revealed cell:
    its neighbours, each kept unless it is known to be a mine AND known to
    be safe. The source tests the two sides of the grid with limits that
    are swapped (the row coordinate against the width, the column
    coordinate against the height); NeighbourCells takes the limits as
    parameters, NeighbourCellsAsWritten passes them the way the source
    does, and the agent uses the intended order. */
module Neighbours {
  import opened Game

  /** Adds `c` unless it is both a known mine and a known safe cell. */
  function AddUnlessKnown(cells: set<Cell>, c: Cell, mines: set<Cell>, safes: set<Cell>): set<Cell> {
    if c !in mines || c !in safes then cells + {c} else cells
  }

  /** The eight candidate neighbours of `cell`, each taken when the row
      above exists (`x - 1 >= 0`), the row below exists
      (`x + 1 <= rowLimit - 1`), the column to the left exists
      (`y - 1 >= 0`) or the column to the right exists
      (`y + 1 <= colLimit - 1`), as its position needs. The row and column
      of `cell` itself are not tested. */
  function NeighbourCells(cell: Cell, rowLimit: int, colLimit: int,
                          mines: set<Cell>, safes: set<Cell>): (r: set<Cell>)
    ensures forall c: Cell :: c in r <==>
              && cell.0 - 1 <= c.0 <= cell.0 + 1 && cell.1 - 1 <= c.1 <= cell.1 + 1
              && c != cell
              && (c.0 < cell.0 ==> 0 <= c.0) && (c.0 > cell.0 ==> c.0 <= rowLimit - 1)
              && (c.1 < cell.1 ==> 0 <= c.1) && (c.1 > cell.1 ==> c.1 <= colLimit - 1)
              && (c !in mines || c !in safes)
  {
    var (x, y) := cell;
    var top := x - 1 >= 0;
    var bottom := x + 1 <= rowLimit - 1;
    var left := y - 1 >= 0;
    var right := y + 1 <= colLimit - 1;
    var s1 := if top && left then AddUnlessKnown({}, (x - 1, y - 1), mines, safes) else {};
    var s2 := if top then AddUnlessKnown(s1, (x - 1, y), mines, safes) else s1;
    var s3 := if top && right then AddUnlessKnown(s2, (x - 1, y + 1), mines, safes) else s2;
    var s4 := if bottom && left then AddUnlessKnown(s3, (x + 1, y - 1), mines, safes) else s3;
    var s5 := if bottom then AddUnlessKnown(s4, (x + 1, y), mines, safes) else s4;
    var s6 := if bottom && right then AddUnlessKnown(s5, (x + 1, y + 1), mines, safes) else s5;
    var s7 := if left then AddUnlessKnown(s6, (x, y - 1), mines, safes) else s6;
    var s8 := if right then AddUnlessKnown(s7, (x, y + 1), mines, safes) else s7;
    s8
  }

  /** For a cell on the grid, the sentence's cells are its neighbours on
      the grid, less those known both as mines and as safe. */
  lemma NeighboursOnGrid(cell: Cell, rows: int, cols: int, mines: set<Cell>, safes: set<Cell>)
    requires 0 <= cell.0 < rows && 0 <= cell.1 < cols
    ensures NeighbourCells(cell, rows, cols, mines, safes) == Around(cell, rows, cols) - mines * safes
  {
    forall c | c in Around(cell, rows, cols) ensures c == (c.0, c.1) {
    }
    forall c | c in NeighbourCells(cell, rows, cols, mines, safes) ensures c in Around(cell, rows, cols) {
      AroundMember(cell, rows, cols, c.0, c.1);
    }
  }

  /** The call as written: the row coordinate is tested against the width
      and the column coordinate against the height. */
  function NeighbourCellsAsWritten(cell: Cell, height: int, width: int,
                                   mines: set<Cell>, safes: set<Cell>): (r: set<Cell>)
    ensures height == width ==> r == NeighbourCells(cell, height, width, mines, safes)
  {
    NeighbourCells(cell, width, height, mines, safes)
  }

  /** On a grid of one row and two columns, the sentence for the corner
      cell names a cell of a second row that does not exist and leaves out
      the real neighbour to the right. */
  lemma SwappedBoundsMissNeighbour()
    ensures NeighbourCellsAsWritten((0, 0), 1, 2, {}, {}) == {(1, 0)}
    ensures Around((0, 0), 1, 2) == {(0, 1)}
    ensures NeighbourCells((0, 0), 1, 2, {}, {}) == {(0, 1)}
  {
    var r := NeighbourCellsAsWritten((0, 0), 1, 2, {}, {});
    forall c | c in r ensures c == (1, 0) {
    }
    forall c | c in Around((0, 0), 1, 2) ensures c == (0, 1) {
    }
    AroundMember((0, 0), 1, 2, 0, 1);
    NeighboursOnGrid((0, 0), 1, 2, {}, {});
  }
}
