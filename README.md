# AI course programs: a verified model

This Dafny project models the core of three programs from an introductory
AI course, and proves what each promises.

- **Crossword generator** (`crossword/generate.py`). `CrosswordCreator`
  treats a crossword as a constraint satisfaction problem:
  - the slots of the grid are the variables;
  - words are the values.

  It keeps one domain (a set of words) per slot. It prunes the domains with
  node consistency (word length) and arc consistency (AC-3 with `revise`).
  Then it searches by backtracking. The search uses two heuristics:
  - minimum remaining values, with the degree as tie-break;
  - least-constraining value.

  `letter_grid` lays an assignment out on the grid. The model is
  `crossword.dfy`, module `CrosswordCsp`. The class keeps the domains in a
  `map<Variable, set<string>>` field that its methods update.
- **Minesweeper** (`minesweeper/minesweeper.py`).
  - The board (`Minesweeper`) answers whether a cell is a mine and how
    many mines surround it.
  - A `Sentence` states that a set of cells holds a given number of mines.
  - `MinesweeperAI` keeps the cells it knows to be mines or safe, the moves
    it made, and a list of sentences. It grows this knowledge base with
    `add_knowledge`:
    - it marks known cells;
    - it infers new sentences by the subset rule;
    - it drops empty sentences.

  The model is `minesweeper.dfy`, module `Minesweeper`. `Sentence`,
  `Minesweeper` and `MinesweeperAI` are classes whose methods update their
  fields in place. Knowledge is a sequence of distinct `Sentence` objects.
- **Tic-tac-toe** (`tictactoe/tictactoe.py`): game rules on a 3×3 board, and
  minimax. The model is `tictactoe.dfy`, module `TicTacToe`:
  - the rules are functions on a board value;
  - the counting loops and the minimax recursion are methods, proved
    against specification functions.

`wrappers.dfy` holds the `Option` datatype, which stands for Python's `None`.

## How the model works

**Iteration order.** Where the source iterates over a Python set or dict,
the model picks the next element with `:|`. Every proof therefore holds
for any iteration order. Where the source picks at random, the model makes
an arbitrary pick from the candidates in the same way:
- `random.choice` in `make_random_move`;
- the random mine placement in `Minesweeper.__init__`, which becomes a
  `placement` parameter.

**Minesweeper soundness.** The soundness of the knowledge base is stated
against a ghost parameter `M`, the true set of mines. Suppose every
sentence, every known mine and every known safe cell was true of `M`, and
the board's report about the clicked cell is true of `M`. Then all of them
are still true of `M` after `add_knowledge`.

**Quirks kept as written.** The model follows the code where it departs
from its own comments:
- **AC-3 re-enqueues more arcs than its comment suggests.** After a shrink
  of `x`'s domain, `ac3` subtracts `y`'s domain (a set of words) from the
  set of slots crossing `x`. This removes nothing, so `(z, x)` is enqueued
  for every slot `z` crossing `x`, including `y` (`Requeue`).
- **`ac3` always returns `False`**, also when it reaches arc consistency.
  `solve` ignores the result anyway.
- **A test in `add_knowledge` excludes nothing.** `add_knowledge` compares
  the pair `(i, j)` with the number `1`, which is never equal. The clicked
  cell drops out of the new sentence only because it was marked safe
  before.
- **`math.inf` never appears in a result.** `max_value` and `min_value`
  start from ±infinity, but a non-terminal board always has a move, so
  integers suffice. The model uses the sentinels -2 and 2.

## Model

| member | source | states |
|---|---|---|
| TicTacToe.InitialState | tictactoe/tictactoe.py:16-18 | the initial board is 3×3 with every cell empty |
| TicTacToe.InitialStateFacts | tictactoe/tictactoe.py:16-18 | on the initial board X is to move, every cell is a legal action and the game is not over |
| TicTacToe.Player | tictactoe/tictactoe.py:27-46 | the player to move is O exactly when X has more cells than O, and X otherwise |
| TicTacToe.TurnAlternates | tictactoe/tictactoe.py:76-87 | a legal move on a board with balanced counts keeps the counts balanced and passes the turn to the other player |
| TicTacToe.Actions | tictactoe/tictactoe.py:54-65 | the actions are exactly the positions of the empty cells |
| TicTacToe.Result | tictactoe/tictactoe.py:76-87 | a move succeeds exactly when it is inside the board and on an empty cell (otherwise the exception outcome); the new board holds the mover's mark at that cell |
| TicTacToe.ResultActions | tictactoe/tictactoe.py:83-87 | the new board equals the old one except at the move, and its actions are the old ones minus the move |
| TicTacToe.Child | tictactoe/tictactoe.py:84-86 | the board after a legal move has exactly one empty cell fewer, which is the termination measure of the minimax recursion |
| TicTacToe.CheckRow | tictactoe/tictactoe.py:90-98 | true exactly when some row is filled with the player's mark |
| TicTacToe.CheckCol | tictactoe/tictactoe.py:101-109 | true exactly when some column is filled with the player's mark |
| TicTacToe.DiagOne | tictactoe/tictactoe.py:112-125 | true exactly when the main diagonal is filled with the player's mark |
| TicTacToe.DiagTwo | tictactoe/tictactoe.py:128-138 | true exactly when the anti-diagonal is filled with the player's mark |
| TicTacToe.Winner | tictactoe/tictactoe.py:141-150 | X when X has a line (checked first); otherwise O when O has one; none exactly when neither has a line |
| TicTacToe.Tie | tictactoe/tictactoe.py:153-166 | true exactly when no cell is empty |
| TicTacToe.FullIffNoAction | tictactoe/tictactoe.py:155-166 | a board is full exactly when it has no action |
| TicTacToe.TerminalIffNoMoves | tictactoe/tictactoe.py:169-177 | the game is over exactly when there is a winner or no move is left |
| TicTacToe.Utility | tictactoe/tictactoe.py:180-191 | 1 exactly when X won, -1 exactly when O won, 0 exactly when nobody did |
| TicTacToe.BestForXIsMaximum | tictactoe/tictactoe.py:200-203 | the running maximum over a set of moves is the largest of their `min_value`s and is attained by one of them |
| TicTacToe.BestForOIsMinimum | tictactoe/tictactoe.py:212-215 | the running minimum over a set of moves is the smallest of their `max_value`s and is attained by one of them |
| TicTacToe.MaxValueOfIsBest | tictactoe/tictactoe.py:194-204 | on a board in play, the value for X bounds every move's `min_value` from above and equals one of them |
| TicTacToe.MinValueOfIsBest | tictactoe/tictactoe.py:207-216 | on a board in play, the value for O bounds every move's `max_value` from below and equals one of them |
| TicTacToe.MaxValue | tictactoe/tictactoe.py:194-204 | returns the minimax value with X to move, which is -1, 0 or 1 |
| TicTacToe.MinValue | tictactoe/tictactoe.py:207-216 | returns the minimax value with O to move, which is -1, 0 or 1 |
| TicTacToe.OptionsForX | tictactoe/tictactoe.py:228-233 | one (value, action) option for every action, each value being the `min_value` of the move |
| TicTacToe.OptionsForO | tictactoe/tictactoe.py:236-239 | one (value, action) option for every action, each value being the `max_value` of the move |
| TicTacToe.FirstBest | tictactoe/tictactoe.py:234 | the head of the options sorted by value (descending for X, ascending for O): a best value, at its first position |
| TicTacToe.MoveForX | tictactoe/tictactoe.py:227-234 | an action whose `min_value` is maximal among all actions and equals the board's value |
| TicTacToe.MoveForO | tictactoe/tictactoe.py:235-240 | an action whose `max_value` is minimal among all actions and equals the board's value |
| TicTacToe.Minimax | tictactoe/tictactoe.py:219-240 | none exactly when the game is over; otherwise a legal action that is optimal for the player to move |
| Minesweeper.Sentence.constructor | minesweeper/minesweeper.py:94-96 | a sentence holds the given cells and count |
| Minesweeper.Sentence.KnownMines | minesweeper/minesweeper.py:104-113 | non-empty exactly when the count equals the number of cells and is not zero, and then all the cells |
| Minesweeper.Sentence.KnownSafes | minesweeper/minesweeper.py:115-124 | non-empty exactly when the count is zero and there are cells, and then all the cells |
| Minesweeper.Sentence.MarkMine | minesweeper/minesweeper.py:126-136 | a cell of the sentence is removed and the count drops by one; otherwise nothing changes |
| Minesweeper.Sentence.MarkSafe | minesweeper/minesweeper.py:138-146 | the cell is removed if present and the count is unchanged |
| Minesweeper.KnownMinesSound | minesweeper/minesweeper.py:110-111 | the cells reported as mines by a true sentence are mines |
| Minesweeper.KnownSafesSound | minesweeper/minesweeper.py:121-122 | the cells reported as safe by a true sentence are not mines |
| Minesweeper.MarkMineKeepsTruth | minesweeper/minesweeper.py:134-136 | removing a mine from a true sentence and decrementing its count keeps it true |
| Minesweeper.MarkSafeKeepsTruth | minesweeper/minesweeper.py:145-146 | removing a safe cell from a true sentence keeps it true |
| Minesweeper.MarkedMinesHold | minesweeper/minesweeper.py:170-177 | marking cells that are mines as mines in every sentence keeps every true sentence true |
| Minesweeper.MarkedSafesHold | minesweeper/minesweeper.py:179-186 | marking cells that are no mines as safe in every sentence keeps every true sentence true |
| Minesweeper.MarkedMinesKeepSlack | minesweeper/minesweeper.py:134-136 | marking mines takes them out of each sentence and lowers its count by as many cells as it lost, so its number of non-mine cells stays the same |
| Minesweeper.AllMinesLeft | minesweeper/minesweeper.py:110-111 | a true sentence whose cells are all mines keeps that property once known cells leave it, and the cells it lost are known mines |
| Minesweeper.AllSafesLeft | minesweeper/minesweeper.py:121-122 | a true sentence with count zero keeps count zero once known cells leave it, and the cells it lost are known safe |
| Minesweeper.SubsetRuleSound | minesweeper/minesweeper.py:250-252 | when the cells of one true sentence are a subset of another's, the difference sentence is true |
| Minesweeper.Minesweeper.constructor | minesweeper/minesweeper.py:10-34 | the board marks exactly the placed mines, and no mine has been found yet |
| Minesweeper.Minesweeper.IsMine | minesweeper/minesweeper.py:51-53 | a cell of the board is marked exactly when it is a mine |
| Minesweeper.Minesweeper.NearbyMines | minesweeper/minesweeper.py:55-78 | the number of mines among the in-bounds cells within one row and column, excluding the cell itself; at most 8 |
| Minesweeper.Minesweeper.WonIffFlagsMatchBoard | minesweeper/minesweeper.py:80-84 | the game is won exactly when the flagged cells are the cells the board marks as mines |
| Minesweeper.MinesweeperAI.constructor | minesweeper/minesweeper.py:154-168 | no moves, no known mines or safe cells, empty knowledge |
| Minesweeper.MinesweeperAI.MarkMine | minesweeper/minesweeper.py:170-177 | the cell joins the mines; every sentence (the list itself unchanged) loses the cell and its count drops by one exactly when it held it; a sound knowledge base stays sound when the cell is a mine |
| Minesweeper.MinesweeperAI.RemoveMine | minesweeper/minesweeper.py:176-177 | every sentence loses the cell, and its count drops by one exactly when it held it |
| Minesweeper.MinesweeperAI.MarkSafe | minesweeper/minesweeper.py:179-186 | the cell joins the safe cells; every sentence (the list itself unchanged) loses the cell and keeps its count; a sound knowledge base stays sound when the cell is no mine |
| Minesweeper.MinesweeperAI.UnknownNeighbours | minesweeper/minesweeper.py:211-225 | the in-bounds cells around the clicked cell (itself included) that are neither safe nor mines, and the count minus the known mines around it |
| Minesweeper.NewSentenceHolds | minesweeper/minesweeper.py:211-228 | when the board's count is true, the new sentence built from the unknown neighbours is true |
| Minesweeper.MinesweeperAI.Observe | minesweeper/minesweeper.py:204-230 | the cell is recorded as a move and as safe; the old sentences lose the cell and keep their counts; a fresh sentence is appended holding exactly the in-bounds unknown cells around the cell, with the count less the known mines around it; a true report keeps the knowledge sound |
| Minesweeper.MinesweeperAI.MarkAllMines | minesweeper/minesweeper.py:235-238 | the cells join the mines; every sentence loses the given cells it held and its count drops by as many; soundness is kept when they are mines |
| Minesweeper.MinesweeperAI.MarkAllSafes | minesweeper/minesweeper.py:239-242 | the cells join the safe cells; every sentence loses the given cells and keeps its count; soundness is kept when they are not mines |
| Minesweeper.MinesweeperAI.InferMines | minesweeper/minesweeper.py:235-238 | the mines a sentence shows are marked, every sentence losing them; if the sentence was true and showed all its cells to be mines before the pass, they are all known mines after |
| Minesweeper.MinesweeperAI.InferSafes | minesweeper/minesweeper.py:239-242 | the safe cells a sentence shows are marked, every sentence losing them; if the sentence was true with count zero before the pass, all its cells are known safe after |
| Minesweeper.MinesweeperAI.InferStep | minesweeper/minesweeper.py:233-242 | one visit of the pass: every sentence is its start-of-pass cells less the known cells, and the visited sentence's conclusions are known when it was true |
| Minesweeper.MinesweeperAI.Infer | minesweeper/minesweeper.py:233-242 | the knowledge list and the moves are unchanged; mines and safe cells only grow; every sentence becomes its old cells less all known cells; when the knowledge was sound it stays sound, and every sentence that showed all its cells to be mines (or, with count zero, safe) has them all known |
| Minesweeper.Deduce | minesweeper/minesweeper.py:245-256 | every deduced sentence is the difference of two distinct known sentences, one a subset of the other, and is not already known; none is repeated; every such difference is known or deduced |
| Minesweeper.DeducedHold | minesweeper/minesweeper.py:245-256 | sentences deduced from true sentences are true |
| Minesweeper.DeducedWithin | minesweeper/minesweeper.py:245-256 | deduced sentences avoid every cell that all known sentences avoid |
| Minesweeper.MinesweeperAI.Extend | minesweeper/minesweeper.py:258 | the knowledge becomes the old knowledge followed by the deduced sentences |
| Minesweeper.MinesweeperAI.DeduceAndExtend | minesweeper/minesweeper.py:245-258 | appends fresh sentences for the deduced facts: each the difference of two known sentences and not already known, none repeated, and every such difference known or deduced; soundness is kept |
| Minesweeper.Clean | minesweeper/minesweeper.py:272-273 | keeps exactly the sentences other than the empty sentence with count 0 |
| Minesweeper.MinesweeperAI.RemoveEmpty | minesweeper/minesweeper.py:271-273 | the knowledge becomes the old knowledge without empty sentences, in order: every kept sentence was there, and every sentence other than `{} = 0` is kept |
| Minesweeper.Kept | minesweeper/minesweeper.py:272-273 | the sentences kept by the list comprehension: each was in the list, and every sentence other than `{} = 0` is kept |
| Minesweeper.KeptFacts | minesweeper/minesweeper.py:272-273 | the facts of the kept sentences are exactly the old facts with every `{} = 0` dropped, order preserved |
| Minesweeper.MinesweeperAI.ObserveAndInfer | minesweeper/minesweeper.py:204-242 | the first half of `add_knowledge`: the cell is a move made and safe; one fresh sentence is appended; after the first pass each old sentence is its old cells less the known cells and the new one holds exactly the unknown in-bounds cells around the cell; a true report keeps a sound knowledge base sound |
| Minesweeper.MinesweeperAI.DeduceAndClean | minesweeper/minesweeper.py:245-273 | the second half of `add_knowledge`: the deduced sentences are exactly the new subset-rule differences, once each; after the second pass every sentence has lost all known cells; then exactly the sentences other than `{} = 0` remain; soundness is kept |
| Minesweeper.MinesweeperAI.AddKnowledge | minesweeper/minesweeper.py:188-273 | the cell is a move made and safe, and mines and safe cells only grow; after the first pass every old sentence is its old cells less the known cells and the new one holds exactly the unknown in-bounds cells around the cell; the deduced sentences are exactly the new differences of those, once each; at the end every sentence has lost all known cells and those other than `{} = 0` remain; a true report keeps a sound knowledge base sound |
| Minesweeper.FirstPass | minesweeper/minesweeper.py:204-242 | after marking the clicked cell safe and the first pass, each old sentence has lost exactly the cells known at that point |
| Minesweeper.MinesweeperAI.MakeSafeMove | minesweeper/minesweeper.py:275-290 | a safe cell not yet played, or none exactly when every safe cell has been played; nothing changes |
| Minesweeper.MinesweeperAI.MakeRandomMove | minesweeper/minesweeper.py:292-311 | an in-bounds cell neither played nor a known mine, or none exactly when no such cell exists |
| CrosswordCsp.CrosswordCreator.constructor | crossword/generate.py:8-16 | every slot's domain is the whole vocabulary, so every solution lies within the domains |
| CrosswordCsp.WrongLengthWords | crossword/generate.py:106-113 | lists exactly the words of the domain whose length differs from the slot's |
| CrosswordCsp.CrosswordCreator.RemoveWordList | crossword/generate.py:115-117 | the slot's domain loses exactly the listed words and the other domains are unchanged |
| CrosswordCsp.CrosswordCreator.EnforceNodeConsistency | crossword/generate.py:96-117 | each domain becomes exactly the words of its old domain with the slot's length, and no solution is lost |
| CrosswordCsp.HasSupport | crossword/generate.py:143-148 | true exactly when some word of the other domain agrees with the word at the overlap |
| CrosswordCsp.UnsupportedWords | crossword/generate.py:138-151 | exactly the words of `x`'s domain without a partner in `y`'s domain at the overlap |
| CrosswordCsp.CrosswordCreator.RemoveWords | crossword/generate.py:153-157 | `x`'s domain loses exactly the given words, the others are unchanged, and the result says whether any was removed |
| CrosswordCsp.CrosswordCreator.Revise | crossword/generate.py:119-159 | without an overlap nothing changes and the answer is false; otherwise `x`'s domain becomes exactly its supported words, every other domain is unchanged, the answer says whether `x`'s domain changed, and no solution is lost |
| CrosswordCsp.CrosswordCreator.InitialArcs | crossword/generate.py:171-176 | exactly the arcs (x, y) with y crossing x |
| CrosswordCsp.CrosswordCreator.Requeue | crossword/generate.py:196-199 | the queue keeps its old arcs in front and gains one arc per slot crossing x, each of the form (z, x) with z crossing x, and every such arc, `y` included, is among them |
| CrosswordCsp.AppendedArcs | crossword/generate.py:196-199 | appending one arc (z, x) for each slot z crossing x keeps the old queue in front, puts every such arc in the queue, and keeps every queued arc a pair of crossing slots |
| CrosswordCsp.PairsShrink | crossword/generate.py:186-199 | removing words from a domain strictly shrinks the set of (slot, word) pairs, the first component of the AC-3 termination measure |
| CrosswordCsp.QueueStep | crossword/generate.py:181-199 | after a revision and the re-enqueueing, every arc of the problem is still queued or consistent |
| CrosswordCsp.CrosswordCreator.ProcessArc | crossword/generate.py:183-199 | one round on the first arc (x, y): without an overlap nothing changes; otherwise x's domain becomes exactly its words supported in y's domain; an emptied domain is reported; an unchanged domain drops the arc, a shrunk one re-enqueues every arc into x; every solution is kept, every tracked arc stays queued or consistent, and the measure decreases |
| CrosswordCsp.CrosswordCreator.Ac3 | crossword/generate.py:161-200 | always answers false; domains only shrink and keep every solution; when no domain is emptied, every arc started from (all arcs, or the given ones) ends consistent |
| CrosswordCsp.CrosswordCreator.AssignmentComplete | crossword/generate.py:202-214 | true exactly when every slot of the puzzle is assigned |
| CrosswordCsp.CrosswordCreator.AgreesWithNeighbors | crossword/generate.py:235-244 | true exactly when the slot's word agrees with every assigned crossing slot's word at their overlap |
| CrosswordCsp.CrosswordCreator.Consistent | crossword/generate.py:216-245 | true exactly when no word is used twice, every word has its slot's length, and every two assigned crossing slots agree at their overlap |
| CrosswordCsp.CrosswordCreator.CountMismatches | crossword/generate.py:278-282 | counts exactly the words of one crossing slot's domain that disagree with the value at the overlap |
| CrosswordCsp.CrosswordCreator.CountConflicts | crossword/generate.py:261-282 | counts exactly the (slot, word) pairs of unassigned crossing slots that the value would rule out |
| CrosswordCsp.SortByKey | crossword/generate.py:285 | a permutation of the words ordered by nondecreasing key |
| CrosswordCsp.CrosswordCreator.OrderDomainValues | crossword/generate.py:247-285 | a permutation of the slot's domain, ordered by how many values of unassigned crossing slots each word rules out, fewest first |
| CrosswordCsp.CrosswordCreator.SelectUnassignedVariable | crossword/generate.py:287-321 | none exactly when every slot is assigned; otherwise an unassigned slot with the fewest remaining words and, among those, the most crossing slots |
| CrosswordCsp.CrosswordCreator.ViableExtension | crossword/generate.py:347-352 | a solution within the domains that extends the assignment and gives the slot this word also extends the assignment with the word added, which is then consistent |
| CrosswordCsp.CrosswordCreator.NoViableExtension | crossword/generate.py:347-360 | when the extended assignment is inconsistent or no solution extends it, no solution extending the original assignment gives the slot this word |
| CrosswordCsp.FoundByOne | crossword/generate.py:347-354 | an assignment found from the extended assignment also extends the original one, is consistent, and takes its new words from the domains |
| CrosswordCsp.CrosswordCreator.TryValue | crossword/generate.py:341-360 | a found assignment fills every slot consistently, keeps the input and takes its new words from the domains; none means no solution within the domains extends the input with this word |
| CrosswordCsp.CrosswordCreator.TryValues | crossword/generate.py:340-362 | as `TryValue`; none means no solution within the domains extends the input with any of the words tried |
| CrosswordCsp.CrosswordCreator.Backtrack | crossword/generate.py:323-363 | a found assignment fills every slot, keeps the input, takes its new words from the domains and is consistent (or is the complete input itself); none means no solution within the domains extends the input |
| CrosswordCsp.WriteWord | crossword/generate.py:27-31 | every cell under a letter of the slot's word (row `i + k` going down, column `j + k` going across) ends filled, filled cells stay filled, and every filled cell holds the letter of some word covering it |
| CrosswordCsp.CrosswordCreator.LetterGrid | crossword/generate.py:18-32 | a fresh height × width grid in which exactly the cells covered by some word are filled, each with a letter of a word covering it |
| CrosswordCsp.CrosswordCreator.Solve | crossword/generate.py:88-94 | a found assignment fills every slot consistently with words of the starting domains; none means the puzzle has no such solution |

## Left out

- Terminal printing, image saving and the command-line driver of the
  crossword generator (`print`, `save`, `main` in `crossword/generate.py`)
  are not part of this model. They are I/O.
- `crossword.py` (grid and vocabulary loading, `Variable`, overlap
  computation) is not part of this model. The puzzle is an input
  (`Crossword`):
  - slots with position, direction and length;
  - a vocabulary;
  - an overlap map assumed well formed (`WellFormed`): an entry for every
    pair of different slots, symmetric, with offsets inside the slots.
- Minesweeper's board printing (`Minesweeper.print`) and `Sentence.__str__`
  are left out. They are I/O and formatting.
- Random choices are not modelled as randomness. The random mine placement
  is the `placement` parameter of `Minesweeper.Minesweeper.constructor`
  (the requested number of mines is its size). The `random.choice` of
  `make_random_move` is an arbitrary pick among the available moves.
- Minesweeper.Minesweeper.IsMine: requires an in-bounds cell. The source
  would wrap negative indices and raise beyond the board.
- Minesweeper.MinesweeperAI.Infer: states each sentence's new cells, but
  its new count only through soundness (a true sentence stays true).
- Minesweeper.MinesweeperAI.AddKnowledge: states the cells of every sentence
  after each pass, and its counts only through soundness.
- The default arguments of the constructors (`height=8, width=8, mines=8`
  for the board, `height=8, width=8` for the AI) are not modelled: the
  model's constructors take every value as a parameter.
- Minesweeper.Minesweeper.constructor: the source's random placement loop
  never ends when more mines are asked for than the board has cells. The
  model takes the placed cells as a set of in-bounds cells, so that case
  cannot be expressed.
- CrosswordCsp.CrosswordCreator.Revise: requires node consistency, which
  `solve` establishes first. Without it, a word shorter than an overlap
  offset would raise an index error.
- CrosswordCsp.CrosswordCreator.Ac3: requires node consistency for the same
  reason as `Revise`. A given arc list must hold pairs of different slots;
  the source would fail on a missing overlap key otherwise. It states no
  timing promise about the early `False` return, only the final state.
- CrosswordCsp.CrosswordCreator.Consistent: requires every word to be at
  least as long as its slot. With a shorter word the source indexes out of
  range, or answers `False`, depending on iteration order.
- CrosswordCsp.CrosswordCreator.LetterGrid: requires every letter to land
  inside the grid. The source would wrap negative indices and raise beyond
  the grid. A negative height or width gives an empty grid, as `range`
  does. When crossing words disagree, the grid keeps the letter written
  last; the model only promises a letter of some covering word.
- CrosswordCsp.SortByKey: Python's `sorted` is stable, but the order of the
  input set is arbitrary. The model promises a permutation in
  nondecreasing key order and nothing about ties.
- CrosswordCsp.CrosswordCreator.Backtrack: works on map values, so the
  caller's assignment can never be changed. The source's `pop` on its own
  copy has no visible effect and is not modelled.
- `heredity`, `shopping` and `parser` in the same repository are not part
  of this model. They are floating-point probability, a machine-learning
  wrapper, and a natural-language parser wrapper.
