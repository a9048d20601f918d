/** A sentence of the Minesweeper agent's knowledge: "exactly `count` of
    these `cells` are mines". Its value is the datatype Constraint, which
    carries the pure queries and the logic; the class Sentence is the
    object the agent keeps in its list and reduces in place. */
module Sentences {
  import opened Python
  import opened Game
  import SetFacts

  /** Exactly `count` of `cells` are mines. Two sentences are equal when
      their cell sets and counts are. */
  datatype Constraint = Constraint(cells: set<Cell>, count: int) {

    /** The constraint is true of the board whose mined cells are `mines`. */
    ghost predicate HoldsFor(mines: set<Cell>) {
      |cells * mines| == count
    }

    /** Every cell is a mine when there are as many mines as cells. Otherwise
        nothing is known, which is `None` and not the empty set. */
    function KnownMines(): (r: Option<set<Cell>>)
      ensures r.Some? <==> |cells| == count
      ensures r.Some? ==> r.value == cells
    {
      if |cells| == count then Some(cells) else None
    }

    /** Every cell is safe when the count is zero; otherwise `None`. */
    function KnownSafes(): (r: Option<set<Cell>>)
      ensures r.Some? <==> count == 0
      ensures r.Some? ==> r.value == cells
    {
      if count == 0 then Some(cells) else None
    }

    /** The constraint once `cell` is known to be a mine: a present cell
        leaves the set and takes one mine with it. */
    function MarkedMine(cell: Cell): (c: Constraint)
      ensures c.cells == cells - {cell}
    {
      if cell in cells then Constraint(cells - {cell}, count - 1) else this
    }

    /** The constraint once `cell` is known to be safe: a present cell
        leaves the set and the count stays. */
    function MarkedSafe(cell: Cell): (c: Constraint)
      ensures c.cells == cells - {cell}
    {
      if cell in cells then Constraint(cells - {cell}, count) else this
    }

    /** The constraint once every cell of `known` is known to be a mine
        (MarkedMine applied for each of them, in any order). */
    function MarkedMines(known: set<Cell>): Constraint {
      Constraint(cells - known, count - |cells * known|)
    }

    /** The constraint once every cell of `known` is known to be safe. */
    function MarkedSafes(known: set<Cell>): Constraint {
      Constraint(cells - known, count)
    }
  }

  /** What subset resolution concludes from `smaller` and `larger` when the
      cells of `smaller` are among those of `larger`: the other cells of
      `larger` hold the remaining mines. */
  function Resolvent(smaller: Constraint, larger: Constraint): Constraint {
    Constraint(larger.cells - smaller.cells, larger.count - smaller.count)
  }

  /** A sentence object, reduced in place as cells become known. */
  class Sentence {
    var cells: set<Cell>
    var count: int

    constructor (cells: set<Cell>, count: int)
      ensures Value() == Constraint(cells, count)
    {
      this.cells := cells;
      this.count := count;
    }

    /** The sentence's current value. */
    function Value(): Constraint
      reads this
    {
      Constraint(cells, count)
    }

    /** Python `==` on sentences: same cells and same count. */
    predicate Equals(other: Sentence)
      reads this, other
      ensures Equals(other) <==> cells == other.cells && count == other.count
    {
      Value() == other.Value()
    }

    method MarkMine(cell: Cell)
      modifies this
      ensures Value() == old(Value()).MarkedMine(cell)
    {
      if cell in cells {
        cells := cells - {cell};
        count := count - 1;
      }
    }

    method MarkSafe(cell: Cell)
      modifies this
      ensures Value() == old(Value()).MarkedSafe(cell)
    {
      if cell in cells {
        cells := cells - {cell};
      }
    }
  }

  // -----------------------------------------------------------------------
  // What the reductions do

  /** Marking a present mine removes it and one from the count, so the
      number of safe cells the sentence speaks of, `|cells| - count`, stays;
      marking a present safe cell keeps the count. */
  lemma MarkingKeepsCounts(c: Constraint, cell: Cell)
    requires cell in c.cells
    ensures c.MarkedMine(cell).count == c.count - 1
    ensures |c.MarkedMine(cell).cells| - c.MarkedMine(cell).count == |c.cells| - c.count
    ensures c.MarkedSafe(cell).count == c.count
    ensures |c.MarkedSafe(cell).cells| == |c.cells| - 1
  {
  }

  /** Marking an absent cell changes nothing, so marking twice is marking
      once. */
  lemma MarkingIsIdempotent(c: Constraint, cell: Cell)
    ensures cell !in c.cells ==> c.MarkedMine(cell) == c && c.MarkedSafe(cell) == c
    ensures c.MarkedMine(cell).MarkedMine(cell) == c.MarkedMine(cell)
    ensures c.MarkedSafe(cell).MarkedSafe(cell) == c.MarkedSafe(cell)
  {
  }

  /** Marking a set of mines one cell at a time; a cell marked twice
      counts once. */
  lemma {:induction false} MarkedMinesStep(c: Constraint, known: set<Cell>, cell: Cell)
    ensures c.MarkedMines(known).MarkedMine(cell) == c.MarkedMines(known + {cell})
  {
    if cell in known {
      assert known + {cell} == known;
    } else if cell in c.cells {
      assert c.cells * (known + {cell}) == c.cells * known + {cell};
    } else {
      assert c.cells * (known + {cell}) == c.cells * known;
    }
  }

  /** Marking a set of safe cells one cell at a time. */
  lemma {:induction false} MarkedSafesStep(c: Constraint, known: set<Cell>, cell: Cell)
    ensures c.MarkedSafes(known).MarkedSafe(cell) == c.MarkedSafes(known + {cell})
  {
  }

  // -----------------------------------------------------------------------
  // Soundness: each rule turns true sentences into true conclusions

  /** When a true sentence has as many mines as cells, all of them are
      mines. */
  lemma {:induction false} KnownMinesAreMines(c: Constraint, mines: set<Cell>)
    requires c.HoldsFor(mines) && c.KnownMines().Some?
    ensures c.KnownMines().value <= mines
  {
    SetFacts.SubsetOfSameSize(c.cells * mines, c.cells);
  }

  /** When a true sentence has count zero, none of its cells is a mine. */
  lemma KnownSafesAreSafe(c: Constraint, mines: set<Cell>)
    requires c.HoldsFor(mines) && c.KnownSafes().Some?
    ensures c.KnownSafes().value * mines == {}
  {
  }

  /** Removing cells that really are mines, with their mines, keeps a true
      sentence true. */
  lemma {:induction false} MarkedMinesStayTrue(c: Constraint, known: set<Cell>, mines: set<Cell>)
    requires c.HoldsFor(mines) && known <= mines
    ensures c.MarkedMines(known).HoldsFor(mines)
  {
    var hit, kept := c.cells * known, (c.cells - known) * mines;
    assert c.cells * mines == kept + hit;
    assert kept * hit == {};
  }

  /** Removing cells that really are safe keeps a true sentence true. */
  lemma {:induction false} MarkedSafesStayTrue(c: Constraint, known: set<Cell>, mines: set<Cell>)
    requires c.HoldsFor(mines) && known * mines == {}
    ensures c.MarkedSafes(known).HoldsFor(mines)
  {
    forall x | x in c.cells * mines ensures x !in known {
      assert x !in known * mines;
    }
    assert (c.cells - known) * mines == c.cells * mines;
  }

  /** Subset resolution is sound: if both sentences are true and the cells
      of the first are among those of the second, the cells only the second
      has hold exactly the difference of the counts. */
  lemma {:induction false} ResolventIsTrue(smaller: Constraint, larger: Constraint, mines: set<Cell>)
    requires smaller.HoldsFor(mines) && larger.HoldsFor(mines)
    requires smaller.cells <= larger.cells
    ensures Resolvent(smaller, larger).HoldsFor(mines)
  {
    var inner, outer := smaller.cells * mines, (larger.cells - smaller.cells) * mines;
    assert larger.cells * mines == inner + outer;
    assert inner * outer == {};
  }
}
