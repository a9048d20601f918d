# Minesweeper agent and Tic-Tac-Toe player, in Dafny

This project models two small game-playing programs and proves facts about them.

**Minesweeper** (`MineSweeper/minesweeper/minesweeper.py`) has three parts:

- The game board (`Minesweeper`). It answers whether a cell is mined and how many mines surround a cell, and it reports whether every mine has been flagged.
- The `Sentence` objects. Each says "exactly `count` of these `cells` are mines", and its cells are removed in place as they become known.
- The `MinesweeperAI` agent. For each safe cell it is told about, it:
  - records the move;
  - marks the cell safe in every sentence;
  - adds a sentence about the cell's neighbours;
  - runs a mine pass and a safe pass over its sentence list;
  - drops empty sentences;
  - adds the resolvents of subset pairs.

**Tic-Tac-Toe** (`TicTacToe/tictactoe.py`) covers the board rules (player to move, legal moves, result of a move, winner, end of game, utility) and the greedy move picker `minimax`/`optimalMove`.

Layout:

- `python.dfy`: `Option`, `Result` with the two exceptions the source raises, and Python list indexing.
- `set_facts.dfy`: two cardinality lemmas.
- `game.dfy`: the board class.
- `sentences.dfy`: the datatype `Constraint`, which is the value of a sentence, and the class `Sentence`.
- `neighbours.dfy`: the neighbour set of a revealed cell.
- `saturation.dfy`, `pruning.dfy` and `resolution.dfy`: each phase of `add_knowledge` as a pure function on lists of `Constraint`, with its lemmas.
- `agent.dfy`: the class `MinesweeperAI`.
  - Its fields are the three cell sets and a `seq<Sentence>` of objects that its methods mutate.
  - Each method is proved against the pure functions. `State()` reads the object graph back as a `Knowledge` value.
  - The agent builds the new sentence with the row and column bounds in the right order (see "## Findings"). The source as written swaps them, which makes no difference only on square grids.
  - The lemma `ObservationKeepsSoundness` proves `add_knowledge`, with the bounds in that order, sound: if everything the agent knew was true of the board and it is told the true count around a safe cell, everything it then knows is true. On a grid that is not square, the source as written can build a false sentence; `Neighbours.SwappedBoundsMissNeighbour` gives such a case.
- `tictactoe.dfy`: the board rules as functions, `Minimax`/`OptimalMove` as methods, and lemmas relating `Winner` to the eight lines of the board.

Python's set iteration order is unspecified, so every loop over a set takes its elements in an arbitrary order (`:|`). Every contract holds whatever that order is.

## Model

| member | source | states |
|---|---|---|
| `Python.ListIndex` | MineSweeper/minesweeper/minesweeper.py:51-53 | A Python index `k` into a list of length `n` is valid exactly when `-n <= k < n`; a negative index counts from the end |
| `Game.Minesweeper.constructor` | MineSweeper/minesweeper/minesweeper.py:10-34 | The board has `height` rows of `width` cells, is true exactly at the given mines, and nothing is flagged yet |
| `Game.Minesweeper.IsMine` | MineSweeper/minesweeper/minesweeper.py:51-53 | A lookup succeeds exactly when both coordinates are valid Python indexes, and then tells whether the indexed cell is mined; otherwise it is IndexError; on the grid it is `cell in mines` |
| `Game.Minesweeper.ScanStep` | MineSweeper/minesweeper/minesweeper.py:69-76 | One step of the scan adds one to the count exactly when the position is on the grid, is not the cell itself and is mined |
| `Game.Minesweeper.NearbyMines` | MineSweeper/minesweeper/minesweeper.py:55-78 | The count is the number of mined cells among the on-grid neighbours of `cell`, and at most 8 |
| `Game.AroundAtMostEight` | MineSweeper/minesweeper/minesweeper.py:66-67 | A cell has at most eight neighbours on the grid |
| `Game.Minesweeper.Won` | MineSweeper/minesweeper/minesweeper.py:80-84 | The game is won exactly when every flagged cell is a mine and there are as many flags as mines |
| `Sentences.Constraint.KnownMines` | MineSweeper/minesweeper/minesweeper.py:104-109 | Gives the cells exactly when there are as many cells as mines, and `None` otherwise |
| `Sentences.Constraint.KnownSafes` | MineSweeper/minesweeper/minesweeper.py:111-116 | Gives the cells exactly when the count is zero, and `None` otherwise |
| `Sentences.Sentence.constructor` | MineSweeper/minesweeper/minesweeper.py:94-96 | A new sentence has the given cells and count |
| `Sentences.Sentence.Equals` | MineSweeper/minesweeper/minesweeper.py:98-99 | Two sentences are equal exactly when their cells and counts are |
| `Sentences.Sentence.MarkMine` | MineSweeper/minesweeper/minesweeper.py:118-125 | The object's new value is its old value with `cell` marked as a mine: if present, the cell is removed and one is taken off the count |
| `Sentences.Sentence.MarkSafe` | MineSweeper/minesweeper/minesweeper.py:127-133 | The object's new value is its old value without `cell`, with the same count |
| `Sentences.MarkingKeepsCounts` | MineSweeper/minesweeper/minesweeper.py:118-133 | Marking a present mine lowers the count by one and keeps the number of safe cells the sentence implies; marking a safe cell keeps the count |
| `Sentences.MarkingIsIdempotent` | MineSweeper/minesweeper/minesweeper.py:118-133 | Marking an absent cell changes nothing, and marking a cell twice is the same as marking it once |
| `Sentences.MarkedMinesStep` | MineSweeper/minesweeper/minesweeper.py:250-251 | Marking one more mine after a set of mines is the same as marking the enlarged set |
| `Sentences.MarkedSafesStep` | MineSweeper/minesweeper/minesweeper.py:261-262 | Marking one more safe cell after a set of safe cells is the same as marking the enlarged set |
| `Sentences.KnownMinesAreMines` | MineSweeper/minesweeper/minesweeper.py:104-109 | On a board where the sentence holds, the cells it reports as mines are mines |
| `Sentences.KnownSafesAreSafe` | MineSweeper/minesweeper/minesweeper.py:111-116 | On a board where the sentence holds, the cells it reports as safe are not mines |
| `Sentences.MarkedMinesStayTrue` | MineSweeper/minesweeper/minesweeper.py:118-125 | Removing true mines from a true sentence leaves a true sentence |
| `Sentences.MarkedSafesStayTrue` | MineSweeper/minesweeper/minesweeper.py:127-133 | Removing true safe cells from a true sentence leaves a true sentence |
| `Sentences.ResolventIsTrue` | MineSweeper/minesweeper/minesweeper.py:283-287 | When a sentence's cells are among another's and both hold, the sentence for the difference of cells and counts holds too |
| `Neighbours.NeighbourCells` | MineSweeper/minesweeper/minesweeper.py:192-239 | A cell is collected exactly when it lies in the 3 x 3 box, is not the cell itself, passes the bound test on the sides it leaves the cell by, and is not both a known mine and a known safe cell (the `or` test) |
| `Neighbours.NeighboursOnGrid` | MineSweeper/minesweeper/minesweeper.py:192-239 | With the bounds in the right order, the collected cells are the on-grid neighbours minus the cells that are both known mines and known safe |
| `Neighbours.NeighbourCellsAsWritten` | MineSweeper/minesweeper/minesweeper.py:194-197 | The call as written, with the row test against the width and the column test against the height, agrees with the intended one on square grids |
| `Neighbours.SwappedBoundsMissNeighbour` | MineSweeper/minesweeper/minesweeper.py:194-197 | On a 1 x 2 grid, the call as written names the off-grid cell (1, 0) for the corner cell and leaves out its only neighbour (0, 1) |
| `Saturation.ShownMinesIncludes` | MineSweeper/minesweeper/minesweeper.py:245-249 | The cells of every sentence the pass has reached that reports its mines are in the collected mine list |
| `Saturation.ShownMinesCameFrom` | MineSweeper/minesweeper/minesweeper.py:245-249 | Every collected mine is a cell of a sentence reached so far that reported its mines |
| `Saturation.ShownSafesIncludes` | MineSweeper/minesweeper/minesweeper.py:256-260 | The cells of every sentence the pass has reached that reports its safe cells are in the collected safe list |
| `Saturation.ShownSafesCameFrom` | MineSweeper/minesweeper/minesweeper.py:256-260 | Every collected safe cell is a cell of a sentence reached so far that reported its safe cells |
| `Saturation.MarkedMineEachIsMarkedMines` | MineSweeper/minesweeper/minesweeper.py:250-251 | Marking the listed cells one by one as mines, duplicates included, gives the sentence with the set of those cells marked |
| `Saturation.MarkedSafeEachIsMarkedSafes` | MineSweeper/minesweeper/minesweeper.py:261-262 | Marking the listed cells one by one as safe gives the sentence with the set of those cells marked |
| `Saturation.MinePassUpToAt` | MineSweeper/minesweeper/minesweeper.py:245-252 | After the mine pass, sentence `k` has had removed every mine reported by sentences `0..k`, and no other |
| `Saturation.SafePassUpToAt` | MineSweeper/minesweeper/minesweeper.py:256-263 | After the safe pass, sentence `k` has had removed every safe cell reported by sentences `0..k`, and no other |
| `Saturation.MinePassStep` | MineSweeper/minesweeper/minesweeper.py:247-249 | Appending the mines reported by sentence `k` extends the collected list from sentences `0..k-1` to sentences `0..k` |
| `Saturation.SafePassStep` | MineSweeper/minesweeper/minesweeper.py:258-260 | Appending the safe cells reported by sentence `k` extends the collected list from sentences `0..k-1` to sentences `0..k` |
| `Saturation.MinePassRemovesShownMines` | MineSweeper/minesweeper/minesweeper.py:245-252 | A mine shown by a sentence is gone from that sentence and from every later one, because the pass marks only the current sentence |
| `Saturation.SafePassRemovesShownSafes` | MineSweeper/minesweeper/minesweeper.py:256-263 | A safe cell shown by a sentence is gone from that sentence and from every later one |
| `Saturation.MinePassIsSound` | MineSweeper/minesweeper/minesweeper.py:243-252 | On a board where every sentence holds, every collected cell is a mine and every sentence still holds after the pass |
| `Saturation.SafePassIsSound` | MineSweeper/minesweeper/minesweeper.py:254-263 | On a board where every sentence holds, no collected cell is a mine and every sentence still holds after the pass |
| `Pruning.FirstIndex` | MineSweeper/minesweeper/minesweeper.py:266 | The position of the first sentence equal to the given one |
| `Pruning.RemoveFirstTakesOneCopy` | MineSweeper/minesweeper/minesweeper.py:266 | `list.remove` takes away exactly one copy of the value |
| `Pruning.RemoveFirstAt` | MineSweeper/minesweeper/minesweeper.py:266 | `list.remove` deletes the element at the first position holding the value |
| `Pruning.PruneStep` | MineSweeper/minesweeper/minesweeper.py:264-266 | When the sentence at the loop position is empty, its first copy is removed and the loop moves on one position, skipping the element that moved into the gap |
| `Pruning.PruneSkip` | MineSweeper/minesweeper/minesweeper.py:264-265 | A sentence that is not empty is kept and the loop moves on |
| `Pruning.PruneEnd` | MineSweeper/minesweeper/minesweeper.py:264 | The loop stops once its position passes the end of the list |
| `Pruning.PruneFromOnlyDropsEmpty` | MineSweeper/minesweeper/minesweeper.py:264-266 | The clean-up only removes sentences, and never one with cells |
| `Pruning.PruneKeepsSentencesWithCells` | MineSweeper/minesweeper/minesweeper.py:264-266 | Every kept sentence was in the list, and every sentence with cells is kept |
| `Pruning.PruneCanKeepEmpty` | MineSweeper/minesweeper/minesweeper.py:264-266 | Because the list is changed while it is iterated, two empty sentences in a row leave one behind |
| `Resolution.Repeats` | MineSweeper/minesweeper/minesweeper.py:276-280 | A pair counts as already used exactly when one of its cell sets equals a recorded cell set (same size and subset) |
| `Resolution.PairStep` | MineSweeper/minesweeper/minesweeper.py:274-289 | One pair keeps the list as a prefix and adds at most one sentence, and the list grows exactly when the pair's cell sets are recorded |
| `Resolution.PairStepContinues` | MineSweeper/minesweeper/minesweeper.py:272-289 | The walk from a pair is the walk from the next pair after that pair's step, and the step keeps every cell within the original cells |
| `Resolution.PairStepShrinks` | MineSweeper/minesweeper/minesweeper.py:288-289 | A pair's step never adds to the cell sets left unused, and when it uses none it leaves the list alone |
| `Resolution.ResolveFrom` | MineSweeper/minesweeper/minesweeper.py:271-289 | The subset walk keeps the existing sentences as a prefix and adds only sentences whose cells lie within the original cells |
| `Resolution.ResolveFromNextRow` | MineSweeper/minesweeper/minesweeper.py:271-272 | When the inner loop reaches the end of the list, the outer loop moves to the next sentence and the inner loop starts again |
| `Resolution.ResolveFromEnd` | MineSweeper/minesweeper/minesweeper.py:271 | When the outer loop passes the end of the list, the list is final |
| `Resolution.ResolveFromPass` | MineSweeper/minesweeper/minesweeper.py:274 | A pair the subset test rejects changes nothing |
| `Resolution.ResolveFromRepeat` | MineSweeper/minesweeper/minesweeper.py:276-282 | A pair that meets a used cell set, or any pair once the flag is set, leaves the list alone and sets the flag for good |
| `Resolution.ResolveFromAdd` | MineSweeper/minesweeper/minesweeper.py:282-289 | A new pair appends its resolvent, which later iterations also see, and records both cell sets |
| `Resolution.ResolventWithin` | MineSweeper/minesweeper/minesweeper.py:283-287 | A resolvent's cells lie within the original cells |
| `Resolution.UsingShrinksUnused` | MineSweeper/minesweeper/minesweeper.py:288-289 | Recording a pair uses up a cell set that was not used before, which bounds the number of sentences the rule can add |
| `Resolution.ResolveFromOnlyDerives` | MineSweeper/minesweeper/minesweeper.py:271-289 | Every sentence the walk adds is the resolvent of an earlier pair the subset test accepts |
| `Resolution.NothingAddedOnceRepeated` | MineSweeper/minesweeper/minesweeper.py:270-282 | Once the flag is set, the walk adds nothing, because the flag is never cleared |
| `Resolution.DerivedIsTrue` | MineSweeper/minesweeper/minesweeper.py:283-287 | A derived sentence holds whenever the sentences before it hold |
| `Resolution.ResolveIsSound` | MineSweeper/minesweeper/minesweeper.py:268-289 | The subset rule keeps the old sentences in place, adds only derived ones, and turns a list of true sentences into a list of true sentences |
| `Agent.Knowledge.Observed` | MineSweeper/minesweeper/minesweeper.py:175-289 | Receiving a count records the move and the cell as safe and never forgets a known mine or safe cell |
| `Agent.MarkedSafeAllHolds` | MineSweeper/minesweeper/minesweeper.py:171-173 | Marking a cell that is not a mine as safe in every sentence keeps them all true |
| `Agent.NewSentenceHolds` | MineSweeper/minesweeper/minesweeper.py:192-242 | The sentence added for a revealed cell holds when the count is the true number of mines around it and the known mines and safe cells are right |
| `Agent.PruneHolds` | MineSweeper/minesweeper/minesweeper.py:264-266 | The clean-up keeps a list of true sentences true |
| `Agent.ObservationKeepsSoundness` | MineSweeper/minesweeper/minesweeper.py:175-289 | If everything the agent knew was true of the board and the count is the true one for a safe cell, everything it knows after add_knowledge is true |
| `Agent.MarkedMineAll` | MineSweeper/minesweeper/minesweeper.py:163-164 | Marking a mine in every sentence removes that cell from each sentence and keeps the list length |
| `Agent.MarkedSafeAll` | MineSweeper/minesweeper/minesweeper.py:172-173 | Marking a safe cell in every sentence removes that cell from each sentence and keeps the list length |
| `Agent.AppendAll` | MineSweeper/minesweeper/minesweeper.py:248-249 | Appending a set's cells in any order keeps the list as a prefix and appends every cell of the set exactly once |
| `Agent.AppendedOnce` | MineSweeper/minesweeper/minesweeper.py:248-249 | Appending one cell not yet appended adds it once to the multiset of appended cells |
| `Agent.CheckUsed` | MineSweeper/minesweeper/minesweeper.py:276-280 | The flag ends up set exactly when it was set before or when one of the pair's cell sets equals a used cell set |
| `Agent.MinesweeperAI.constructor` | MineSweeper/minesweeper/minesweeper.py:141-155 | A new agent has no moves, no known mines or safe cells, and no sentences |
| `Agent.MinesweeperAI.MarkMine` | MineSweeper/minesweeper/minesweeper.py:157-164 | Adds the cell to the known mines and marks it as a mine in every sentence object, in place |
| `Agent.MinesweeperAI.MarkSafe` | MineSweeper/minesweeper/minesweeper.py:166-173 | Adds the cell to the known safe cells and marks it safe in every sentence object, in place |
| `Agent.MinesweeperAI.AddKnowledge` | MineSweeper/minesweeper/minesweeper.py:175-289 | The agent's new state is `Observed` applied to its old state |
| `Agent.MinesweeperAI.SaturateMines` | MineSweeper/minesweeper/minesweeper.py:243-252 | The sentence objects end up with the values of the mine pass, and the known mines gain every collected cell |
| `Agent.MinesweeperAI.MinePassAt` | MineSweeper/minesweeper/minesweeper.py:247-252 | One iteration of the mine pass: the collected list grows by this sentence's mines, and this sentence takes the value the pass gives it |
| `Agent.MinesweeperAI.MarkMinesOn` | MineSweeper/minesweeper/minesweeper.py:250-252 | Marks each listed cell as a mine in one sentence and adds it to the known mines |
| `Agent.MinesweeperAI.SaturateSafes` | MineSweeper/minesweeper/minesweeper.py:254-263 | The sentence objects end up with the values of the safe pass, and the known safe cells gain every collected cell |
| `Agent.MinesweeperAI.SafePassAt` | MineSweeper/minesweeper/minesweeper.py:258-263 | One iteration of the safe pass: the collected list grows by this sentence's safe cells, and this sentence takes the value the pass gives it |
| `Agent.MinesweeperAI.MarkSafesOn` | MineSweeper/minesweeper/minesweeper.py:261-263 | Marks each listed cell safe in one sentence and adds it to the known safe cells |
| `Agent.MinesweeperAI.DropEmpty` | MineSweeper/minesweeper/minesweeper.py:264-266 | The list of sentence objects ends up with the values of the clean-up, removing while iterating |
| `Agent.MinesweeperAI.Remove` | MineSweeper/minesweeper/minesweeper.py:266 | `list.remove` of a sentence object removes the first object with an equal value |
| `Agent.MinesweeperAI.IndexOf` | MineSweeper/minesweeper/minesweeper.py:266 | Finds the first position whose sentence equals the given one under `__eq__` |
| `Agent.MinesweeperAI.ResolveSubsets` | MineSweeper/minesweeper/minesweeper.py:268-289 | The list of sentence objects ends up with the values of the subset rule |
| `Agent.MinesweeperAI.ResolveRow` | MineSweeper/minesweeper/minesweeper.py:271-289 | One pass of the inner loop over a list that grows as it is walked |
| `Agent.MinesweeperAI.ResolveStep` | MineSweeper/minesweeper/minesweeper.py:272-289 | One iteration of the inner loop: the walk from this pair before is the walk from the next pair after, and either nothing changes or a cell set is used up |
| `Agent.MinesweeperAI.ResolvePair` | MineSweeper/minesweeper/minesweeper.py:272-289 | One pair, with the sentence objects in place: the new list values, used cell sets and flag are exactly `PairStep` of the old ones (the pair is skipped, the flag is set, or the resolvent is appended and both cell sets are recorded) |
| `Agent.MinesweeperAI.AddSentence` | MineSweeper/minesweeper/minesweeper.py:241-242 | Appends a fresh sentence object with the given value and keeps the existing objects in place |
| `Agent.MinesweeperAI.MakeSafeMove` | MineSweeper/minesweeper/minesweeper.py:291-304 | Gives a known safe cell that is neither played nor a known mine, and `None` exactly when there is none |
| `Agent.MinesweeperAI.MakeRandomMove` | MineSweeper/minesweeper/minesweeper.py:306-318 | Gives the first cell of the grid, row by row, that is neither played nor a known mine, and `None` exactly when there is none |
| `TicTacToe.InitialState` | TicTacToe/tictactoe.py:14-20 | Three rows of three empty squares |
| `TicTacToe.InitialStateFacts` | TicTacToe/tictactoe.py:14-20 | On the empty board every square is free, X is to move, and the game is not over |
| `TicTacToe.MarkedCells` | TicTacToe/tictactoe.py:27-29 | The positions holding a mark; their number is numpy's count of that mark |
| `TicTacToe.Player` | TicTacToe/tictactoe.py:23-30 | X is to move exactly when both players have placed the same number of marks |
| `TicTacToe.Actions` | TicTacToe/tictactoe.py:33-44 | The actions are exactly the empty positions on the grid |
| `TicTacToe.ActionsAreLegalMoves` | TicTacToe/tictactoe.py:33-61 | An action is available exactly when it is on the grid and `result` accepts it |
| `TicTacToe.SquaresAddUp` | TicTacToe/tictactoe.py:27-44 | Empty squares, X marks and O marks add up to nine |
| `TicTacToe.Result` | TicTacToe/tictactoe.py:47-61 | A taken square raises ValueError and an index outside Python's range raises IndexError. Otherwise the player to move marks the square, negative indexes count from the end, and every other square is unchanged |
| `TicTacToe.MoveEffect` | TicTacToe/tictactoe.py:47-61 | A legal move adds exactly the played square to the mover's marks, raises the mover's count by one, leaves the other player's marks alone and removes exactly that square from the actions |
| `TicTacToe.TurnsAlternate` | TicTacToe/tictactoe.py:23-30 | From a board of alternating play, a move keeps play alternating and passes the turn |
| `TicTacToe.RowWinnerSpec` | TicTacToe/tictactoe.py:69-72 | The row scan finds nothing exactly when no remaining row is complete, and otherwise gives the owner of the first complete row |
| `TicTacToe.ColumnWinnerSpec` | TicTacToe/tictactoe.py:74-77 | The column scan finds nothing exactly when no remaining column is complete, and otherwise gives the owner of the first complete column |
| `TicTacToe.Winner` | TicTacToe/tictactoe.py:64-83 | A reported winner owns a complete line |
| `TicTacToe.WinnerIsFirstCompleteLine` | TicTacToe/tictactoe.py:64-83 | There is a winner exactly when some line is complete, and it owns the first complete line in the order rows, columns, diagonals |
| `TicTacToe.WinnerHasThreeMarks` | TicTacToe/tictactoe.py:64-83 | A winner has at least three marks on the board |
| `TicTacToe.Utility` | TicTacToe/tictactoe.py:103-113 | The utility is 1, -1 or 0 exactly when X wins, O wins or nobody wins |
| `TicTacToe.Terminal` | TicTacToe/tictactoe.py:86-100 | A finished game has a winner or no empty square left |
| `TicTacToe.TerminalWhenWonOrFull` | TicTacToe/tictactoe.py:86-100 | On a board of alternating play, the game is over exactly when someone has won or no square is empty |
| `TicTacToe.PickedIffTerminal` | TicTacToe/tictactoe.py:132-137 | The move picker's three-way test accepts a move exactly when the move ends the game |
| `TicTacToe.OptimalMove` | TicTacToe/tictactoe.py:126-137 | The move picked is an available action that ends the game; `None` means that no available action ends it |
| `TicTacToe.Minimax` | TicTacToe/tictactoe.py:116-123 | No move on a finished game; otherwise whatever the picker returns |
| `TicTacToe.NoOpeningMoveEndsGame` | TicTacToe/tictactoe.py:116-137 | No first move ends the game, so the picker returns no move on the empty board |

## Left out

- `Agent.Knowledge.Observed`: builds the neighbour sentence with the row tested against the height and the column against the width, not with the swapped tests of minesweeper.py:194-197. The two agree on square grids only (`Neighbours.NeighbourCellsAsWritten`). On a 1 x 2 grid with a mine at (0, 1), the source appends `{(1, 0)} = 1` and later records the off-grid cell (1, 0) as a mine, which the model does not.
- `Agent.MinesweeperAI.AddKnowledge`: its new state is `Observed`, so it carries the same corrected bound order.
- `Agent.NewSentenceHolds`: proved of the sentence built with the corrected bounds. The sentence the source builds on a grid that is not square can be false (`Neighbours.SwappedBoundsMissNeighbour`).
- `Agent.ObservationKeepsSoundness`: proved of `add_knowledge` with the corrected bounds. For the source as written, it holds on square grids, where both sentences are the same.

- Random mine placement (`Minesweeper.__init__`, lines 25-31) is left out. The constructor takes the set of mines as a parameter.
- `Minesweeper.print` and `Sentence.__str__` print text or format it for printing, so they are left out.
- numpy is not modelled as a library. `np.count_nonzero` is the size of a set of positions, and `np.nonzero`/`np.transpose` give the set of empty positions.
- Python's set iteration order is left out; every loop over a set picks its elements in an arbitrary order. `make_safe_move` and `optimalMove` may therefore return any of the moves the source could return, and their contracts state what holds of every one of them.
- `mine_cells` and `safe_cells` in the two passes are lists, and `AppendAll` keeps them as lists. Only the set of their elements matters to the marking, so the spec functions use that set.
- The repeated call to `add_knowledge` until nothing changes is left out. The source makes one pass per call, and so does the model.
- `Agent.MinesweeperAI.ResolveRow`: the contract ties one pass to the spec function `ResolveFrom` and bounds the used cell sets. It does not restate the inner loop's per-pair behaviour, which `ResolvePair` states.
- The commented-out minimax code (TicTacToe/tictactoe.py:139-150) never runs and is left out. `TicTacToe/test.py` is not part of this model.
- `TicTacToe.OptimalMove`: the result of the recursive call, which the source discards, is discarded here too. The contract says nothing about the search tree.
- `TicTacToe.Result`: a board is a value, so `copy.deepcopy` is just the use of a new value.
- The board's `mines_found` set is never changed by the modelled code: the flagging is done by the game runner, which is not part of this model.
- Heights and widths are natural numbers. A negative size does not occur in the source's callers.

## Findings

| source | as written | input that shows it | evidently intended | confidence | as-written member | corrected member |
|---|---|---|---|---|---|---|
| MineSweeper/minesweeper/minesweeper.py:194-197 | The row coordinate `x` is tested against `self.width - 1` and the column coordinate `y` against `self.height - 1` | a 1-row, 2-column grid with cell (0, 0) revealed: the sentence names the off-grid cell (1, 0) and leaves out the neighbour (0, 1) | rows tested against the height and columns against the width | not executed | `Neighbours.SwappedBoundsMissNeighbour` | `Neighbours.NeighboursOnGrid` |
