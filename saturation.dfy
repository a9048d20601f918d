/** The two saturation passes of add_knowledge, as functions of the list of
    sentences they start from. Each pass walks the list once, collecting
    the cells that the sentence at hand shows to be mines (or safe) and then
    marking every cell collected so far on that sentence only: a cell is
    removed from the sentence it came from and from the later ones, never
    from the earlier ones. */
module Saturation {
  import opened Game
  import opened Sentences

  /** The cells that sentences `0 .. n - 1` show to be mines. */
  function ShownMines(facts: seq<Constraint>, n: nat): set<Cell>
    requires n <= |facts|
  {
    if n == 0 then {}
    else
      var earlier := ShownMines(facts, n - 1);
      var last := facts[n - 1].KnownMines();
      if last.Some? then earlier + last.value else earlier
  }

  /** The cells that sentences `0 .. n - 1` show to be safe. */
  function ShownSafes(facts: seq<Constraint>, n: nat): set<Cell>
    requires n <= |facts|
  {
    if n == 0 then {}
    else
      var earlier := ShownSafes(facts, n - 1);
      var last := facts[n - 1].KnownSafes();
      if last.Some? then earlier + last.value else earlier
  }

  /** The cells of every sentence that shows its cells to be mines are
      collected. */
  lemma {:induction false} ShownMinesIncludes(facts: seq<Constraint>, n: nat, k: nat)
    requires k < n <= |facts| && facts[k].KnownMines().Some?
    ensures facts[k].cells <= ShownMines(facts, n)
  {
    if k < n - 1 {
      ShownMinesIncludes(facts, n - 1, k);
    }
  }

  /** The cells of every sentence that shows its cells to be safe are
      collected. */
  lemma {:induction false} ShownSafesIncludes(facts: seq<Constraint>, n: nat, k: nat)
    requires k < n <= |facts| && facts[k].KnownSafes().Some?
    ensures facts[k].cells <= ShownSafes(facts, n)
  {
    if k < n - 1 {
      ShownSafesIncludes(facts, n - 1, k);
    }
  }

  /** Every cell collected as a mine comes from a sentence that shows it. */
  lemma {:induction false} ShownMinesCameFrom(facts: seq<Constraint>, n: nat, c: Cell)
    requires n <= |facts| && c in ShownMines(facts, n)
    ensures exists k | 0 <= k < n :: facts[k].KnownMines().Some? && c in facts[k].cells
  {
    if c !in ShownMines(facts, n - 1) {
      assert facts[n - 1].KnownMines().Some? && c in facts[n - 1].cells;
    } else {
      ShownMinesCameFrom(facts, n - 1, c);
    }
  }

  /** Every cell collected as safe comes from a sentence that shows it. */
  lemma {:induction false} ShownSafesCameFrom(facts: seq<Constraint>, n: nat, c: Cell)
    requires n <= |facts| && c in ShownSafes(facts, n)
    ensures exists k | 0 <= k < n :: facts[k].KnownSafes().Some? && c in facts[k].cells
  {
    if c !in ShownSafes(facts, n - 1) {
      assert facts[n - 1].KnownSafes().Some? && c in facts[n - 1].cells;
    } else {
      ShownSafesCameFrom(facts, n - 1, c);
    }
  }

  /** The distinct elements of a list of cells. */
  function ElemsOf(s: seq<Cell>): set<Cell> {
    set c | c in s
  }

  /** Appending one cell adds it to the distinct elements. */
  lemma ElemsOfAppend(s: seq<Cell>, c: Cell)
    ensures ElemsOf(s + [c]) == ElemsOf(s) + {c}
  {
    assert forall x | x in s + [c] :: x in s || x == c;
  }

  /** A sentence after marking the cells of a list as mines, one after
      the other. */
  function MarkedMineEach(c: Constraint, cells: seq<Cell>): Constraint {
    if cells == [] then c else MarkedMineEach(c, cells[..|cells| - 1]).MarkedMine(cells[|cells| - 1])
  }

  /** A sentence after marking the cells of a list as safe, one after the
      other. */
  function MarkedSafeEach(c: Constraint, cells: seq<Cell>): Constraint {
    if cells == [] then c else MarkedSafeEach(c, cells[..|cells| - 1]).MarkedSafe(cells[|cells| - 1])
  }

  /** Marking the cells of a list one by one, repeats included, is marking
      the set of them at once. */
  lemma {:induction false} MarkedMineEachIsMarkedMines(c: Constraint, cells: seq<Cell>)
    ensures MarkedMineEach(c, cells) == c.MarkedMines(ElemsOf(cells))
  {
    if cells == [] {
      assert ElemsOf(cells) == {};
      assert c.cells * {} == {};
    } else {
      var init, last := cells[..|cells| - 1], cells[|cells| - 1];
      assert cells == init + [last];
      MarkedMineEachIsMarkedMines(c, init);
      ElemsOfAppend(init, last);
      MarkedMinesStep(c, ElemsOf(init), last);
    }
  }

  /** The same for safe cells. */
  lemma {:induction false} MarkedSafeEachIsMarkedSafes(c: Constraint, cells: seq<Cell>)
    ensures MarkedSafeEach(c, cells) == c.MarkedSafes(ElemsOf(cells))
  {
    if cells == [] {
      assert ElemsOf(cells) == {};
    } else {
      var init, last := cells[..|cells| - 1], cells[|cells| - 1];
      assert cells == init + [last];
      MarkedSafeEachIsMarkedSafes(c, init);
      ElemsOfAppend(init, last);
      MarkedSafesStep(c, ElemsOf(init), last);
    }
  }

  /** The sentences after the mine pass: sentence `k` has lost the cells
      that sentences `0 .. k` showed to be mines, and one mine for each. */
  function MinePass(facts: seq<Constraint>): (r: seq<Constraint>)
    ensures |r| == |facts|
  {
    MinePassUpTo(facts, |facts|)
  }

  /** The first `n` sentences after the mine pass. */
  function MinePassUpTo(facts: seq<Constraint>, n: nat): (r: seq<Constraint>)
    requires n <= |facts|
    ensures |r| == n
  {
    if n == 0 then [] else MinePassUpTo(facts, n - 1) + [facts[n - 1].MarkedMines(ShownMines(facts, n))]
  }

  /** Sentence `k` after the mine pass has lost the cells that sentences
      `0 .. k` showed. */
  lemma {:induction false} MinePassUpToAt(facts: seq<Constraint>, n: nat, k: nat)
    requires k < n <= |facts|
    ensures MinePassUpTo(facts, n)[k] == facts[k].MarkedMines(ShownMines(facts, k + 1))
  {
    if k < n - 1 {
      MinePassUpToAt(facts, n - 1, k);
    }
  }

  /** The sentences after the safe pass: sentence `k` has lost the cells
      that sentences `0 .. k` showed to be safe. */
  function SafePass(facts: seq<Constraint>): (r: seq<Constraint>)
    ensures |r| == |facts|
  {
    SafePassUpTo(facts, |facts|)
  }

  /** The first `n` sentences after the safe pass. */
  function SafePassUpTo(facts: seq<Constraint>, n: nat): (r: seq<Constraint>)
    requires n <= |facts|
    ensures |r| == n
  {
    if n == 0 then [] else SafePassUpTo(facts, n - 1) + [facts[n - 1].MarkedSafes(ShownSafes(facts, n))]
  }

  /** Sentence `k` after the safe pass has lost the cells that sentences
      `0 .. k` showed. */
  lemma {:induction false} SafePassUpToAt(facts: seq<Constraint>, n: nat, k: nat)
    requires k < n <= |facts|
    ensures SafePassUpTo(facts, n)[k] == facts[k].MarkedSafes(ShownSafes(facts, k + 1))
  {
    if k < n - 1 {
      SafePassUpToAt(facts, n - 1, k);
    }
  }

  /** One step of the mine pass: once sentence `k` has added the cells it
      shows to be mines, the list holds those of sentences `0 .. k`, and
      marking them all on sentence `k` gives its value after the pass. */
  lemma MinePassStep(facts: seq<Constraint>, k: nat, cells: seq<Cell>)
    requires k < |facts|
    requires ElemsOf(cells) == ShownMines(facts, k) +
               (if facts[k].KnownMines().Some? then facts[k].cells else {})
    ensures ElemsOf(cells) == ShownMines(facts, k + 1)
    ensures ShownMines(facts, k) <= ShownMines(facts, k + 1)
    ensures facts[k].MarkedMines(ElemsOf(cells)) == MinePass(facts)[k]
  {
    MinePassUpToAt(facts, |facts|, k);
  }

  /** One step of the safe pass, likewise. */
  lemma SafePassStep(facts: seq<Constraint>, k: nat, cells: seq<Cell>)
    requires k < |facts|
    requires ElemsOf(cells) == ShownSafes(facts, k) +
               (if facts[k].KnownSafes().Some? then facts[k].cells else {})
    ensures ElemsOf(cells) == ShownSafes(facts, k + 1)
    ensures ShownSafes(facts, k) <= ShownSafes(facts, k + 1)
    ensures facts[k].MarkedSafes(ElemsOf(cells)) == SafePass(facts)[k]
  {
    SafePassUpToAt(facts, |facts|, k);
  }

  /** Every sentence of the list is true of the board with mines `mines`. */
  ghost predicate AllHold(facts: seq<Constraint>, mines: set<Cell>) {
    forall k | 0 <= k < |facts| :: facts[k].HoldsFor(mines)
  }

  /** A cell that a sentence shows to be a mine is gone from that sentence
      and from every later one after the mine pass, while earlier sentences
      may keep it. */
  lemma MinePassRemovesShownMines(facts: seq<Constraint>, source: nat, k: nat)
    requires source <= k < |facts| && facts[source].KnownMines().Some?
    ensures MinePass(facts)[k].cells == facts[k].cells - ShownMines(facts, k + 1)
    ensures MinePass(facts)[k].cells !! facts[source].cells
  {
    ShownMinesIncludes(facts, k + 1, source);
    MinePassUpToAt(facts, |facts|, k);
  }

  /** A cell that a sentence shows to be safe is gone from that sentence
      and from every later one after the safe pass. */
  lemma SafePassRemovesShownSafes(facts: seq<Constraint>, source: nat, k: nat)
    requires source <= k < |facts| && facts[source].KnownSafes().Some?
    ensures SafePass(facts)[k].cells == facts[k].cells - ShownSafes(facts, k + 1)
    ensures SafePass(facts)[k].cells !! facts[source].cells
  {
    ShownSafesIncludes(facts, k + 1, source);
    SafePassUpToAt(facts, |facts|, k);
  }

  /** When every sentence is true, every cell the mine pass collects is a
      mine and the sentences stay true. */
  lemma {:induction false} MinePassIsSound(facts: seq<Constraint>, mines: set<Cell>)
    requires AllHold(facts, mines)
    ensures ShownMines(facts, |facts|) <= mines
    ensures AllHold(MinePass(facts), mines)
  {
    forall n | 0 <= n <= |facts| ensures ShownMines(facts, n) <= mines {
      forall c | c in ShownMines(facts, n) ensures c in mines {
        ShownMinesCameFrom(facts, n, c);
        var k :| 0 <= k < n && facts[k].KnownMines().Some? && c in facts[k].cells;
        KnownMinesAreMines(facts[k], mines);
      }
    }
    forall k | 0 <= k < |facts| ensures MinePass(facts)[k].HoldsFor(mines) {
      MinePassUpToAt(facts, |facts|, k);
      MarkedMinesStayTrue(facts[k], ShownMines(facts, k + 1), mines);
    }
  }

  /** When every sentence is true, no cell the safe pass collects is a
      mine and the sentences stay true. */
  lemma {:induction false} SafePassIsSound(facts: seq<Constraint>, mines: set<Cell>)
    requires AllHold(facts, mines)
    ensures ShownSafes(facts, |facts|) !! mines
    ensures AllHold(SafePass(facts), mines)
  {
    forall n | 0 <= n <= |facts| ensures ShownSafes(facts, n) !! mines {
      forall c | c in ShownSafes(facts, n) ensures c !in mines {
        ShownSafesCameFrom(facts, n, c);
        var k :| 0 <= k < n && facts[k].KnownSafes().Some? && c in facts[k].cells;
        KnownSafesAreSafe(facts[k], mines);
        assert c !in facts[k].KnownSafes().value * mines;
      }
    }
    forall k | 0 <= k < |facts| ensures SafePass(facts)[k].HoldsFor(mines) {
      SafePassUpToAt(facts, |facts|, k);
      MarkedSafesStayTrue(facts[k], ShownSafes(facts, k + 1), mines);
    }
  }
}
