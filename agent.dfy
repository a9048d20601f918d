/** The Minesweeper agent: the moves made, the cells known to be mines or
    safe, and a list of sentence objects that it reduces and extends as
    cells are revealed. Its state, read as values, is a Knowledge; each
    method is proved against the function on Knowledge that says what the
    source computes, and the soundness of those functions is proved at the
    end. */
module Agent {
  import opened Python
  import opened Game
  import opened Sentences
  import opened Saturation
  import opened Pruning
  import opened Resolution
  import opened Neighbours

  /** The agent's state as values. */
  datatype Knowledge = Knowledge(movesMade: set<Cell>, mines: set<Cell>, safes: set<Cell>,
                                 facts: seq<Constraint>)
  {
    /** Everything the agent believes is true of the board whose mines are
        `board`: its mines are mines, its safe cells are not, and every
        sentence holds. */
    ghost predicate SoundFor(board: set<Cell>) {
      mines <= board && safes !! board && AllHold(facts, board)
    }

    /** What add_knowledge does with the report that `cell` is safe and has
        `count` mined neighbours: record the move, mark the cell safe
        everywhere, add the sentence about its neighbours, run the mine
        pass, the safe pass, the clean-up and the subset rule. */
    function Observed(cell: Cell, count: int, height: int, width: int): (k: Knowledge)
      ensures k.movesMade == movesMade + {cell}
      ensures mines <= k.mines && safes + {cell} <= k.safes
    {
      var safes1 := safes + {cell};
      var marked := MarkedSafeAll(facts, cell);
      var added := marked + [Constraint(NeighbourCells(cell, height, width, mines, safes1), count)];
      var afterMines := MinePass(added);
      var afterSafes := SafePass(afterMines);
      var pruned := Prune(afterSafes);
      Knowledge(movesMade + {cell},
                mines + ShownMines(added, |added|),
                safes1 + ShownSafes(afterMines, |afterMines|),
                Resolve(pruned))
    }
  }

  /** Marking a cell that is not a mine as safe keeps every sentence true. */
  lemma MarkedSafeAllHolds(facts: seq<Constraint>, cell: Cell, board: set<Cell>)
    requires AllHold(facts, board) && cell !in board
    ensures AllHold(MarkedSafeAll(facts, cell), board)
  {
    var r := MarkedSafeAll(facts, cell);
    forall k | 0 <= k < |r| ensures r[k].HoldsFor(board) {
      assert facts[k].HoldsFor(board);
      assert r[k].cells * board == facts[k].cells * board;
      assert r[k] == facts[k].MarkedSafe(cell);
    }
  }

  /** The sentence added for a revealed cell is true when the count is the
      number of mines around it and the known mines and safe cells are
      right: no cell is then both, so the sentence covers every neighbour
      on the grid. */
  lemma NewSentenceHolds(cell: Cell, count: int, height: int, width: int,
                         mines: set<Cell>, safes: set<Cell>, board: set<Cell>)
    requires 0 <= cell.0 < height && 0 <= cell.1 < width
    requires mines <= board && safes !! board
    requires count == |Around(cell, height, width) * board|
    ensures Constraint(NeighbourCells(cell, height, width, mines, safes), count).HoldsFor(board)
  {
    NeighboursOnGrid(cell, height, width, mines, safes);
    assert mines * safes == {};
  }

  /** Sentences kept by the clean-up are sentences that were there. */
  lemma PruneHolds(facts: seq<Constraint>, board: set<Cell>)
    requires AllHold(facts, board)
    ensures AllHold(Prune(facts), board)
  {
    PruneKeepsSentencesWithCells(facts);
    var r := Prune(facts);
    forall k | 0 <= k < |r| ensures r[k].HoldsFor(board) {
      assert r[k] in facts;
      var t :| 0 <= t < |facts| && facts[t] == r[k];
    }
  }

  /** add_knowledge keeps the agent right about the board: when everything
      it knew was true and it is told the true number of mines around a
      safe cell, everything it then knows is true, whatever it deduced. */
  lemma ObservationKeepsSoundness(k: Knowledge, cell: Cell, count: int, height: int, width: int,
                                  board: set<Cell>)
    requires k.SoundFor(board)
    requires 0 <= cell.0 < height && 0 <= cell.1 < width && cell !in board
    requires count == |Around(cell, height, width) * board|
    ensures k.Observed(cell, count, height, width).SoundFor(board)
  {
    var safes1 := k.safes + {cell};
    var marked := MarkedSafeAll(k.facts, cell);
    var added := marked + [Constraint(NeighbourCells(cell, height, width, k.mines, safes1), count)];
    MarkedSafeAllHolds(k.facts, cell, board);
    NewSentenceHolds(cell, count, height, width, k.mines, safes1, board);
    assert AllHold(added, board) by {
      forall t | 0 <= t < |added| ensures added[t].HoldsFor(board) {
        if t < |marked| { assert added[t] == marked[t]; }
      }
    }
    MinePassIsSound(added, board);
    var afterMines := MinePass(added);
    SafePassIsSound(afterMines, board);
    var afterSafes := SafePass(afterMines);
    PruneHolds(afterSafes, board);
    ResolveIsSound(Prune(afterSafes), board);
  }

  /** Every sentence once `cell` is known to be a mine. */
  function MarkedMineAll(facts: seq<Constraint>, cell: Cell): (r: seq<Constraint>)
    ensures |r| == |facts|
    ensures forall k | 0 <= k < |r| :: r[k].cells == facts[k].cells - {cell}
  {
    seq(|facts|, k requires 0 <= k < |facts| => facts[k].MarkedMine(cell))
  }

  /** Every sentence once `cell` is known to be safe. */
  function MarkedSafeAll(facts: seq<Constraint>, cell: Cell): (r: seq<Constraint>)
    ensures |r| == |facts|
    ensures forall k | 0 <= k < |r| :: r[k].cells == facts[k].cells - {cell}
  {
    seq(|facts|, k requires 0 <= k < |facts| => facts[k].MarkedSafe(cell))
  }

  /** `a` comes before `b` row by row. */
  predicate Before(a: Cell, b: Cell) {
    a.0 < b.0 || (a.0 == b.0 && a.1 < b.1)
  }

  /** `for cell in cells: list.append(cell)`, taking the cells of the set
      in whatever order it yields them. */
  method AppendAll(list: seq<Cell>, cells: set<Cell>) returns (r: seq<Cell>)
    ensures |r| == |list| + |cells| && r[..|list|] == list
    ensures ElemsOf(r) == ElemsOf(list) + cells
    ensures multiset(r[|list|..]) == multiset(cells)
  {
    r := list;
    var pending := cells;
    while pending != {}
      invariant pending <= cells
      invariant |r| == |list| + |cells - pending| && r[..|list|] == list
      invariant ElemsOf(r) == ElemsOf(list) + (cells - pending)
      invariant multiset(r[|list|..]) == multiset(cells - pending)
    {
      var c :| c in pending;
      ElemsOfAppend(r, c);
      assert cells - (pending - {c}) == (cells - pending) + {c};
      AppendedOnce(r, |list|, c, cells - pending);
      r := r + [c];
      pending := pending - {c};
    }
    assert cells - pending == cells;
  }

  /** Appending a cell that is not yet among `done` adds one copy of it to
      the appended part. */
  lemma AppendedOnce(r: seq<Cell>, n: nat, c: Cell, done: set<Cell>)
    requires n <= |r| && multiset(r[n..]) == multiset(done) && c !in done
    ensures multiset((r + [c])[n..]) == multiset(done + {c})
  {
    assert (r + [c])[n..] == r[n..] + [c];
  }

  /** The loop over the used cell sets of the subset rule: the flag ends
      up set when it was set before or when one of the two cell sets has
      the size of a used set and lies within it, which is when it equals
      that set. */
  method CheckUsed(usedCells: seq<set<Cell>>, a: set<Cell>, b: set<Cell>, repeated: bool) returns (r: bool)
    ensures r <==> repeated || exists k | 0 <= k < |usedCells| :: usedCells[k] == a || usedCells[k] == b
    ensures r == (repeated || Repeats(usedCells, a, b))
  {
    r := repeated;
    for t := 0 to |usedCells|
      invariant r == (repeated || Repeats(usedCells[..t], a, b))
    {
      assert usedCells[..t + 1][..t] == usedCells[..t];
      var used := usedCells[t];
      if |a| == |used| && a <= used {
        r := true;
      } else if |b| == |used| && b <= used {
        r := true;
      }
    }
    assert usedCells[..|usedCells|] == usedCells;
  }

  /** The values of a list of sentence objects. */
  ghost function Values(s: seq<Sentence>): (r: seq<Constraint>)
    reads s
    ensures |r| == |s|
    ensures forall k | 0 <= k < |r| :: r[k] == s[k].Value()
  {
    if s == [] then [] else Values(s[..|s| - 1]) + [s[|s| - 1].Value()]
  }

  /** Removing an object from the list removes its value. */
  lemma ValuesRemove(s: seq<Sentence>, j: nat, r: seq<Sentence>)
    requires j < |s| && r == s[..j] + s[j + 1..]
    ensures Values(r) == Values(s)[..j] + Values(s)[j + 1..]
  {
    var v := Values(s);
    var w := v[..j] + v[j + 1..];
    forall t | 0 <= t < |r| ensures Values(r)[t] == w[t] {
      if t < j {
        assert r[t] == s[t] && w[t] == v[t];
      } else {
        assert r[t] == s[t + 1] && w[t] == v[t + 1];
      }
    }
  }

  /** A list whose objects have the values of `t`, one by one, has the
      values `t`. */
  lemma ValuesAre(s: seq<Sentence>, t: seq<Constraint>)
    requires |s| == |t| && forall m | 0 <= m < |s| :: s[m].Value() == t[m]
    ensures Values(s) == t
  {
  }

  /** Appending an object appends its value. */
  lemma ValuesAppend(s: seq<Sentence>, x: Sentence)
    ensures Values(s + [x]) == Values(s) + [x.Value()]
  {
    assert forall t | 0 <= t < |s| + 1 :: Values(s + [x])[t] == (Values(s) + [x.Value()])[t];
  }

  /** Adding a set's subset and then the set adds the set. */
  lemma UnionAbsorbs(a: set<Cell>, b: set<Cell>, c: set<Cell>)
    requires b <= c
    ensures a + b + c == a + c
  {
  }

  /** No object occurs twice in the list. */
  ghost predicate Distinct(s: seq<Sentence>) {
    forall a, b | 0 <= a < b < |s| :: s[a] != s[b]
  }

  /** Removing an element keeps the others distinct. */
  lemma DistinctRemove(s: seq<Sentence>, j: nat)
    requires Distinct(s) && j < |s|
    ensures Distinct(s[..j] + s[j + 1..])
  {
    var r := s[..j] + s[j + 1..];
    forall a, b | 0 <= a < b < |r| ensures r[a] != r[b] {
      var a', b' := if a < j then a else a + 1, if b < j then b else b + 1;
      assert r[a] == s[a'] && r[b] == s[b'];
    }
  }

  /** Removing the first object whose value is `v` removes the first
      value equal to `v`, and keeps the list distinct. */
  lemma RemoveAtFirstEqual(s: seq<Sentence>, j: nat, v: Constraint)
    requires Distinct(s) && j < |s| && s[j].Value() == v
    requires forall t | 0 <= t < j :: s[t].Value() != v
    ensures Distinct(s[..j] + s[j + 1..])
    ensures Values(s[..j] + s[j + 1..]) == RemoveFirst(Values(s), v)
  {
    DistinctRemove(s, j);
    ValuesRemove(s, j, s[..j] + s[j + 1..]);
    RemoveFirstAt(Values(s), v, j);
  }

  /** Appending an object not in the list keeps it distinct. */
  lemma DistinctAppend(s: seq<Sentence>, x: Sentence)
    requires Distinct(s) && x !in s
    ensures Distinct(s + [x])
  {
  }

  class MinesweeperAI {
    const height: nat
    const width: nat
    var movesMade: set<Cell>
    var mines: set<Cell>
    var safes: set<Cell>
    var knowledge: seq<Sentence>

    /** No sentence object is in the list twice, so reducing one leaves the
        others alone. */
    ghost predicate Valid()
      reads this
    {
      Distinct(knowledge)
    }

    /** The values of the sentences in the list. */
    ghost function Facts(): (r: seq<Constraint>)
      reads this, knowledge
      ensures |r| == |knowledge|
      ensures forall k | 0 <= k < |r| :: r[k] == knowledge[k].Value()
    {
      Values(knowledge)
    }

    /** The agent's state as values. */
    ghost function State(): Knowledge
      reads this, knowledge
    {
      Knowledge(movesMade, mines, safes, Facts())
    }

    /** An agent that knows nothing yet. */
    constructor (height: nat, width: nat)
      ensures Valid()
      ensures this.height == height && this.width == width
      ensures State() == Knowledge({}, {}, {}, [])
    {
      this.height := height;
      this.width := width;
      movesMade := {};
      mines := {};
      safes := {};
      knowledge := [];
    }

    /** Records `cell` as a mine and removes it, with one mine, from every
        sentence that has it. */
    method MarkMine(cell: Cell)
      requires Valid()
      modifies this, knowledge
      ensures Valid() && knowledge == old(knowledge)
      ensures State() == old(State()).(mines := old(mines) + {cell},
                                       facts := MarkedMineAll(old(Facts()), cell))
    {
      ghost var facts := Facts();
      mines := mines + {cell};
      for k := 0 to |knowledge|
        invariant knowledge == old(knowledge)
        invariant movesMade == old(movesMade) && safes == old(safes) && mines == old(mines) + {cell}
        invariant forall m | 0 <= m < k :: knowledge[m].Value() == facts[m].MarkedMine(cell)
        invariant forall m | k <= m < |knowledge| :: knowledge[m].Value() == facts[m]
      {
        knowledge[k].MarkMine(cell);
      }
    }

    /** Records `cell` as safe and removes it from every sentence that has
        it. */
    method MarkSafe(cell: Cell)
      requires Valid()
      modifies this, knowledge
      ensures Valid() && knowledge == old(knowledge)
      ensures State() == old(State()).(safes := old(safes) + {cell},
                                       facts := MarkedSafeAll(old(Facts()), cell))
    {
      ghost var facts := Facts();
      safes := safes + {cell};
      for k := 0 to |knowledge|
        invariant knowledge == old(knowledge)
        invariant movesMade == old(movesMade) && mines == old(mines) && safes == old(safes) + {cell}
        invariant forall m | 0 <= m < k :: knowledge[m].Value() == facts[m].MarkedSafe(cell)
        invariant forall m | k <= m < |knowledge| :: knowledge[m].Value() == facts[m]
      {
        knowledge[k].MarkSafe(cell);
      }
    }

    /** Takes in the report that `cell` is safe and has `count` mined
        neighbours, and draws the conclusions add_knowledge draws. */
    method AddKnowledge(cell: Cell, count: int)
      requires Valid()
      modifies this, knowledge
      ensures Valid()
      ensures State() == old(State()).Observed(cell, count, height, width)
    {
      ghost var before := State();
      movesMade := movesMade + {cell};
      MarkSafe(cell);
      var cells := NeighbourCells(cell, height, width, mines, safes);
      AddSentence(cells, count);
      ghost var added := Facts();
      assert added == MarkedSafeAll(before.facts, cell) + [Constraint(cells, count)];
      SaturateMines();
      SaturateSafes();
      DropEmpty();
      ResolveSubsets();
    }

    /** The mine pass: each sentence in turn adds the cells it shows to be
        mines to a growing list, then every cell of that list is marked as
        a mine on this sentence and recorded among the mines. */
    method SaturateMines()
      requires Valid()
      modifies this, knowledge
      ensures Valid() && knowledge == old(knowledge)
      ensures movesMade == old(movesMade) && safes == old(safes)
      ensures mines == old(mines) + ShownMines(old(Facts()), |old(Facts())|)
      ensures Facts() == MinePass(old(Facts()))
    {
      ghost var facts := Facts();
      ghost var target := MinePass(facts);
      var mineCells: seq<Cell> := [];
      for k := 0 to |knowledge|
        invariant Valid() && knowledge == old(knowledge)
        invariant movesMade == old(movesMade) && safes == old(safes)
        invariant ElemsOf(mineCells) == ShownMines(facts, k)
        invariant mines == old(mines) + ShownMines(facts, k)
        invariant forall m | 0 <= m < k :: knowledge[m].Value() == target[m]
        invariant forall m | k <= m < |knowledge| :: knowledge[m].Value() == facts[m]
      {
        mineCells := MinePassAt(facts, old(mines), k, mineCells);
      }
      ValuesAre(knowledge, target);
    }

    /** One round of the mine pass, at the sentence in position `k`. */
    method MinePassAt(ghost facts: seq<Constraint>, ghost base: set<Cell>, k: nat, cells: seq<Cell>)
      returns (grown: seq<Cell>)
      requires Valid() && k < |knowledge| == |facts|
      requires ElemsOf(cells) == ShownMines(facts, k) && mines == base + ShownMines(facts, k)
      requires forall m | 0 <= m < k :: knowledge[m].Value() == MinePass(facts)[m]
      requires forall m | k <= m < |knowledge| :: knowledge[m].Value() == facts[m]
      modifies this, knowledge[k]
      ensures Valid() && knowledge == old(knowledge) && movesMade == old(movesMade) && safes == old(safes)
      ensures ElemsOf(grown) == ShownMines(facts, k + 1) && mines == base + ShownMines(facts, k + 1)
      ensures forall m | 0 <= m < k + 1 :: knowledge[m].Value() == MinePass(facts)[m]
      ensures forall m | k + 1 <= m < |knowledge| :: knowledge[m].Value() == facts[m]
    {
      var sentence := knowledge[k];
      var known := sentence.Value().KnownMines();
      grown := cells;
      if known.Some? {
        grown := AppendAll(grown, known.value);
      }
      MinePassStep(facts, k, grown);
      UnionAbsorbs(base, ShownMines(facts, k), ShownMines(facts, k + 1));
      MarkMinesOn(sentence, grown);
    }

    /** Marks every cell of `cells` as a mine on `sentence` and records it
        among the mines. */
    method MarkMinesOn(sentence: Sentence, cells: seq<Cell>)
      modifies this, sentence
      ensures knowledge == old(knowledge) && movesMade == old(movesMade) && safes == old(safes)
      ensures mines == old(mines) + ElemsOf(cells)
      ensures sentence.Value() == old(sentence.Value()).MarkedMines(ElemsOf(cells))
    {
      ghost var start := sentence.Value();
      for t := 0 to |cells|
        invariant knowledge == old(knowledge) && movesMade == old(movesMade) && safes == old(safes)
        invariant mines == old(mines) + ElemsOf(cells[..t])
        invariant sentence.Value() == MarkedMineEach(start, cells[..t])
      {
        assert cells[..t + 1][..t] == cells[..t];
        ElemsOfAppend(cells[..t], cells[t]);
        sentence.MarkMine(cells[t]);
        mines := mines + {cells[t]};
      }
      assert cells[..|cells|] == cells;
      MarkedMineEachIsMarkedMines(start, cells);
    }

    /** The safe pass: the same walk with the cells sentences show to be
        safe. */
    method SaturateSafes()
      requires Valid()
      modifies this, knowledge
      ensures Valid() && knowledge == old(knowledge)
      ensures movesMade == old(movesMade) && mines == old(mines)
      ensures safes == old(safes) + ShownSafes(old(Facts()), |old(Facts())|)
      ensures Facts() == SafePass(old(Facts()))
    {
      ghost var facts := Facts();
      var safeCells: seq<Cell> := [];
      for k := 0 to |knowledge|
        invariant Valid() && knowledge == old(knowledge)
        invariant movesMade == old(movesMade) && mines == old(mines)
        invariant ElemsOf(safeCells) == ShownSafes(facts, k)
        invariant safes == old(safes) + ShownSafes(facts, k)
        invariant forall m | 0 <= m < k :: knowledge[m].Value() == SafePass(facts)[m]
        invariant forall m | k <= m < |knowledge| :: knowledge[m].Value() == facts[m]
      {
        safeCells := SafePassAt(facts, old(safes), k, safeCells);
      }
      ValuesAre(knowledge, SafePass(facts));
    }

    /** One round of the safe pass, at the sentence in position `k`. */
    method SafePassAt(ghost facts: seq<Constraint>, ghost base: set<Cell>, k: nat, cells: seq<Cell>)
      returns (grown: seq<Cell>)
      requires Valid() && k < |knowledge| == |facts|
      requires ElemsOf(cells) == ShownSafes(facts, k) && safes == base + ShownSafes(facts, k)
      requires forall m | 0 <= m < k :: knowledge[m].Value() == SafePass(facts)[m]
      requires forall m | k <= m < |knowledge| :: knowledge[m].Value() == facts[m]
      modifies this, knowledge[k]
      ensures Valid() && knowledge == old(knowledge) && movesMade == old(movesMade) && mines == old(mines)
      ensures ElemsOf(grown) == ShownSafes(facts, k + 1) && safes == base + ShownSafes(facts, k + 1)
      ensures forall m | 0 <= m < k + 1 :: knowledge[m].Value() == SafePass(facts)[m]
      ensures forall m | k + 1 <= m < |knowledge| :: knowledge[m].Value() == facts[m]
    {
      var sentence := knowledge[k];
      var known := sentence.Value().KnownSafes();
      grown := cells;
      if known.Some? {
        grown := AppendAll(grown, known.value);
      }
      SafePassStep(facts, k, grown);
      UnionAbsorbs(base, ShownSafes(facts, k), ShownSafes(facts, k + 1));
      MarkSafesOn(sentence, grown);
    }

    /** Marks every cell of `cells` as safe on `sentence` and records it
        among the safe cells. */
    method MarkSafesOn(sentence: Sentence, cells: seq<Cell>)
      modifies this, sentence
      ensures knowledge == old(knowledge) && movesMade == old(movesMade) && mines == old(mines)
      ensures safes == old(safes) + ElemsOf(cells)
      ensures sentence.Value() == old(sentence.Value()).MarkedSafes(ElemsOf(cells))
    {
      ghost var start := sentence.Value();
      for t := 0 to |cells|
        invariant knowledge == old(knowledge) && movesMade == old(movesMade) && mines == old(mines)
        invariant safes == old(safes) + ElemsOf(cells[..t])
        invariant sentence.Value() == MarkedSafeEach(start, cells[..t])
      {
        assert cells[..t + 1][..t] == cells[..t];
        ElemsOfAppend(cells[..t], cells[t]);
        sentence.MarkSafe(cells[t]);
        safes := safes + {cells[t]};
      }
      assert cells[..|cells|] == cells;
      MarkedSafeEachIsMarkedSafes(start, cells);
    }

    /** The clean-up: walks the list by position and, at a sentence without
        cells, removes the first sentence equal to it. */
    method DropEmpty()
      requires Valid()
      modifies this
      ensures Valid()
      ensures movesMade == old(movesMade) && mines == old(mines) && safes == old(safes)
      ensures Facts() == Prune(old(Facts()))
    {
      ghost var target := Prune(Facts());
      var i := 0;
      while i < |knowledge|
        invariant Valid()
        invariant movesMade == old(movesMade) && mines == old(mines) && safes == old(safes)
        invariant PruneFrom(Facts(), i) == target
        decreases |knowledge|, |knowledge| - i
      {
        if |knowledge[i].cells| == 0 {
          PruneStep(Facts(), i);
          Remove(knowledge[i]);
        } else {
          PruneSkip(Facts(), i);
        }
        i := i + 1;
      }
      PruneEnd(Facts(), i);
    }

    /** `knowledge.remove(sentence)`: drops the first sentence EQUAL to
        `sentence`, which may come before the object itself. */
    method Remove(sentence: Sentence)
      requires Valid() && sentence in knowledge
      modifies this
      ensures Valid()
      ensures movesMade == old(movesMade) && mines == old(mines) && safes == old(safes)
      ensures Facts() == RemoveFirst(old(Facts()), sentence.Value())
    {
      var j := IndexOf(sentence);
      var rest := knowledge[..j] + knowledge[j + 1..];
      RemoveAtFirstEqual(knowledge, j, sentence.Value());
      knowledge := rest;
    }

    /** `knowledge.index(sentence)`: the position of the first sentence
        equal to `sentence`. */
    method IndexOf(sentence: Sentence) returns (j: nat)
      requires sentence in knowledge
      ensures j < |knowledge| && knowledge[j].Value() == sentence.Value()
      ensures forall t | 0 <= t < j :: knowledge[t].Value() != sentence.Value()
    {
      ghost var at :| 0 <= at < |knowledge| && knowledge[at] == sentence;
      j := 0;
      while !knowledge[j].Equals(sentence)
        invariant 0 <= j <= at
        invariant forall t | 0 <= t < j :: knowledge[t].Value() != sentence.Value()
        decreases at - j
      {
        j := j + 1;
      }
    }

    /** The subset rule: for each pair of positions, in the list as it
        grows, a pair of different non-empty sentences whose first one's
        cells are among the second one's adds the sentence about the cells
        only the second has, unless a used cell set turns up; the flag that
        records that is never cleared. */
    method ResolveSubsets()
      requires Valid()
      modifies this
      ensures Valid()
      ensures movesMade == old(movesMade) && mines == old(mines) && safes == old(safes)
      ensures Facts() == Resolve(old(Facts()))
    {
      ghost var u := CellsOf(Facts());
      var usedCells: seq<set<Cell>> := [];
      var repeated := false;
      var i := 0;
      while i < |knowledge|
        invariant Valid() && i <= |knowledge|
        invariant movesMade == old(movesMade) && mines == old(mines) && safes == old(safes)
        invariant Within(Facts(), u) && forall k | 0 <= k < |usedCells| :: usedCells[k] <= u
        invariant ResolveFrom(Facts(), i, 0, usedCells, repeated, u) == Resolve(old(Facts()))
        decreases Subsets(u) - Elems(usedCells), |knowledge| - i
      {
        usedCells, repeated := ResolveRow(i, u, usedCells, repeated);
        i := i + 1;
      }
      ResolveFromEnd(Facts(), usedCells, repeated, u);
    }

    /** The inner loop of the subset rule: `sentence1` at position `i`
        against every sentence of the list, as it grows. */
    method ResolveRow(i: nat, ghost u: set<Cell>, usedCells: seq<set<Cell>>, repeated: bool)
      returns (used: seq<set<Cell>>, again: bool)
      requires Valid() && i < |knowledge|
      requires Within(Facts(), u) && forall k | 0 <= k < |usedCells| :: usedCells[k] <= u
      modifies this
      ensures Valid() && |old(knowledge)| <= |knowledge|
      ensures movesMade == old(movesMade) && mines == old(mines) && safes == old(safes)
      ensures Within(Facts(), u) && forall k | 0 <= k < |used| :: used[k] <= u
      ensures ResolveFrom(old(Facts()), i, 0, usedCells, repeated, u) == ResolveFrom(Facts(), i + 1, 0, used, again, u)
      ensures used == usedCells ==> |knowledge| == |old(knowledge)|
      ensures used != usedCells ==> Subsets(u) - Elems(used) < Subsets(u) - Elems(usedCells)
    {
      ghost var cur := Facts();
      ghost var start := ResolveFrom(cur, i, 0, usedCells, repeated, u);
      used, again := usedCells, repeated;
      var j := 0;
      while j < |knowledge|
        invariant Valid() && |old(knowledge)| <= |knowledge| && j <= |knowledge|
        invariant movesMade == old(movesMade) && mines == old(mines) && safes == old(safes)
        invariant cur == Facts()
        invariant Within(cur, u) && forall k | 0 <= k < |used| :: used[k] <= u
        invariant ResolveFrom(cur, i, j, used, again, u) == start
        invariant |usedCells| <= |used|
        invariant used == usedCells ==> |knowledge| == |old(knowledge)|
        invariant used != usedCells ==> Subsets(u) - Elems(used) < Subsets(u) - Elems(usedCells)
        decreases Subsets(u) - Elems(used), |knowledge| - j
      {
        ghost var grew;
        used, again, grew, cur := ResolveStep(i, j, u, used, again, cur);
        j := j + 1;
      }
      ResolveFromNextRow(Facts(), i, used, again, u);
    }

    /** One iteration of the inner loop, stated against the walk: the walk
        from `(i, j)` before is the walk from `(i, j + 1)` after, and the
        used cell sets only grow. */
    method ResolveStep(i: nat, j: nat, ghost u: set<Cell>, usedCells: seq<set<Cell>>, repeated: bool, ghost before: seq<Constraint>)
      returns (used: seq<set<Cell>>, again: bool, ghost grew: bool, ghost after: seq<Constraint>)
      requires Valid() && i < |knowledge| && j < |knowledge| && before == Facts()
      requires Within(before, u) && forall k | 0 <= k < |usedCells| :: usedCells[k] <= u
      modifies this
      ensures Valid() && |old(knowledge)| <= |knowledge| && after == Facts()
      ensures movesMade == old(movesMade) && mines == old(mines) && safes == old(safes)
      ensures Within(after, u) && forall k | 0 <= k < |used| :: used[k] <= u
      ensures ResolveFrom(before, i, j, usedCells, repeated, u) == ResolveFrom(after, i, j + 1, used, again, u)
      ensures grew ==> |used| > |usedCells| && Subsets(u) - Elems(used) < Subsets(u) - Elems(usedCells)
      ensures !grew ==> used == usedCells && |knowledge| == |old(knowledge)|
    {
      ghost var w := PairStep(before, i, j, usedCells, repeated);
      PairStepContinues(before, i, j, usedCells, repeated, u);
      PairStepShrinks(before, i, j, usedCells, repeated, u);
      used, again := ResolvePair(i, j, u, usedCells, repeated);
      after := Facts();
      assert after == w.facts && used == w.used && again == w.repeated;
      grew := used != usedCells;
    }

    /** The body of the subset rule for the pair at positions `(i, j)`. */
    method ResolvePair(i: nat, j: nat, ghost u: set<Cell>, usedCells: seq<set<Cell>>, repeated: bool)
      returns (used: seq<set<Cell>>, again: bool)
      requires Valid() && i < |knowledge| && j < |knowledge|
      modifies this
      ensures Valid() && |old(knowledge)| <= |knowledge| && knowledge[..|old(knowledge)|] == old(knowledge)
      ensures movesMade == old(movesMade) && mines == old(mines) && safes == old(safes)
      ensures Walk(Facts(), used, again) == PairStep(old(Facts()), i, j, usedCells, repeated)
    {
      var sentence1, sentence2 := knowledge[i], knowledge[j];
      ghost var facts := Facts();
      assert facts[i] == sentence1.Value() && facts[j] == sentence2.Value();
      used, again := usedCells, repeated;
      if !sentence1.Equals(sentence2) && |sentence1.cells| != 0 && |sentence2.cells| != 0
         && sentence1.cells <= sentence2.cells
      {
        again := CheckUsed(usedCells, sentence1.cells, sentence2.cells, repeated);
        if !again {
          used := usedCells + [sentence1.cells, sentence2.cells];
          AddSentence(sentence2.cells - sentence1.cells, sentence2.count - sentence1.count);
        }
      }
    }

    /** `knowledge.append(Sentence(cells, count))`. */
    method AddSentence(cells: set<Cell>, count: int)
      requires Valid()
      modifies this
      ensures Valid()
      ensures movesMade == old(movesMade) && mines == old(mines) && safes == old(safes)
      ensures |knowledge| == |old(knowledge)| + 1 && knowledge[..|old(knowledge)|] == old(knowledge)
      ensures fresh(knowledge[|old(knowledge)|])
      ensures Facts() == old(Facts()) + [Constraint(cells, count)]
    {
      var added := new Sentence(cells, count);
      DistinctAppend(knowledge, added);
      ValuesAppend(knowledge, added);
      knowledge := knowledge + [added];
    }

    /** A cell known to be safe that has not been played and is not known
        to be a mine, in whatever order the set of safe cells yields. */
    method MakeSafeMove() returns (move: Option<Cell>)
      ensures move.Some? ==> move.value in safes && move.value !in movesMade && move.value !in mines
      ensures move.None? <==> safes <= movesMade + mines
    {
      var pending := safes;
      while pending != {}
        invariant pending <= safes
        invariant forall c | c in safes - pending :: c in movesMade || c in mines
      {
        var c :| c in pending;
        if c !in movesMade && c !in mines {
          return Some(c);
        }
        pending := pending - {c};
      }
      return None;
    }

    /** The first cell of the grid, row by row, that has not been played and
        is not known to be a mine. */
    method MakeRandomMove() returns (move: Option<Cell>)
      ensures move.Some? ==>
                && 0 <= move.value.0 < height && 0 <= move.value.1 < width
                && move.value !in movesMade && move.value !in mines
                && forall c: Cell | 0 <= c.0 < height && 0 <= c.1 < width && Before(c, move.value) ::
                     c in movesMade || c in mines
      ensures move.None? <==> forall c: Cell | 0 <= c.0 < height && 0 <= c.1 < width ::
                                 c in movesMade || c in mines
    {
      for i := 0 to height
        invariant forall c: Cell | 0 <= c.0 < i && 0 <= c.1 < width :: c in movesMade || c in mines
      {
        for j := 0 to width
          invariant forall c: Cell | 0 <= c.0 < i && 0 <= c.1 < width :: c in movesMade || c in mines
          invariant forall c: Cell | c.0 == i && 0 <= c.1 < j :: c in movesMade || c in mines
        {
          var move := (i, j);
          if move !in movesMade && move !in mines {
            return Some(move);
          }
        }
      }
      return None;
    }
  }
}
