# Minesweeper agent and tic-tac-toe chooser, in Dafny

This project models two game components of a CS50 AI coursework repository:

- **Minesweeper** (`1.minesweeper/minesweeper.py`):
  - The board (`Minesweeper`) answers whether a cell holds a mine and how many mines surround a cell.
  - The inference agent (`MinesweeperAI`) keeps the cells it has played, the cells it knows to be mines or safe, and a list of `Sentence`s. A sentence says "exactly `count` of these `cells` are mines".
  - After each reveal the agent adds a sentence about the neighbours, settles it when it says "no mines" or "all mines", and makes one resolution pass over its sentences.
- **Tic-tac-toe** (`0.tictactoe/tictactoe.py`):
  - The rules: the initial board, whose turn it is, the legal moves, the board after a move, the winner, the end of the game and its score.
  - A one-ply move chooser (named `minimax` in the program). It takes a winning move if there is one, else blocks the opponent. Otherwise it takes the centre when the centre is free and fewer than eight squares are free, else the first free corner, else the first free square.

Layout:

| file | module | what it holds |
|---|---|---|
| `options.dfy` | `Options` | `Option` |
| `set_facts.dfy` | `SetFacts` | cardinality lemmas about finite sets |
| `sentence_logic.dfy` | `SentenceLogic` | the value of a sentence (`Claim`), its queries and update rules as functions, and their soundness |
| `knowledge_logic.dfy` | `KnowledgeLogic` | the agent's state as a value (`Knowledge`), every agent operation as a function, and growth, case and soundness lemmas |
| `minesweeper.dfy` | `MinesweeperGame` | the classes `Sentence`, `MinesweeperAI` and `Minesweeper`, whose methods change their fields in place with the program's loops |
| `tictactoe_rules.dfy` | `TicTacToeRules` | the rules and the chooser as functions, and the lemmas saying what they mean |
| `tictactoe.dfy` | `TicTacToe` | the program's loop-based functions as methods |

How the two layers connect:

- **Minesweeper.** Each method that changes the agent ties its new state to a function of `KnowledgeLogic`, as `Abstract() == F(old(Abstract()), …)`:
  - `MarkMine`, `MarkSafe`, `MarkMines`, `MarkSafes`, `ClearUnmined`, `Conclude`, `Settle`, `Observe` and `AddKnowledge` use the function with the same name;
  - `ResolveSentence` uses `Resolve`, and `ResolvePass` uses `Pass`;
  - `RevealSafeCell` uses `AddKnowledge`, with the count the board reports.
- `Sentence.MarkMine` and `Sentence.MarkSafe` instead state `Value() == MinedBy(old(Value()), c)` and `Value() == ClearedBy(old(Value()), c)`, with functions of `SentenceLogic`. The properties are proved about these functions.
- **Soundness.** The main guarantee is `KnowledgeLogic.AddKnowledgeSound`. If every known fact and every sentence is true of the actual mine layout, and the agent is given a safe cell together with the true count of mines around it, then after `add_knowledge` everything is still true. In particular no cell is then both a known mine and known safe. `MinesweeperGame.RevealSafeCell` ties this to the board's own `nearby_mines`.
- **Tic-tac-toe.** The methods of `TicTacToe` are tied to `TicTacToeRules` as follows; the lemmas in `TicTacToeRules` state the properties:
  - `Player`, `Actions`, `Result`, `Winner` and `Minimax` return exactly the function with the same name;
  - `Place` returns `Play`, and `ChooseAmong` returns `ChooseBy`;
  - `Terminal` holds exactly when the predicate `Terminal` does;
  - `Utility` has no function of its own: it states its result through `HasLine`;
  - `TryMove` gives the two tests the chooser uses, and fixes the second only when the first fails, since the program skips it then;
  - `Fallback` states its pick directly: the centre, the first corner or the first move.

Where the agent's documented behaviour and its code differ, the model follows the code:

- `add_knowledge` makes a single resolution pass. It has no subset inference and no loop to a fixpoint.
- The new sentence leaves out only cells already played or known safe. Known mines stay in it.
- Sentences are appended even when they can never be true, for example no cells with a positive count.

## Model

| member | source | states |
|---|---|---|
| SentenceLogic.KnownMines | 1.minesweeper/minesweeper.py:104-110 | the answer is present exactly when the sentence has as many cells as mines, and it is then the whole set of cells |
| SentenceLogic.KnownSafes | 1.minesweeper/minesweeper.py:112-118 | the answer is present exactly when the count is zero, and it is then the whole set of cells |
| SentenceLogic.HoldsBounds | 1.minesweeper/minesweeper.py:87-96 | a sentence that is true of the mine layout has a count between 0 and its number of cells |
| SentenceLogic.KnownMinesSound | 1.minesweeper/minesweeper.py:104-110 | for a true sentence, every cell reported by known_mines is a mine |
| SentenceLogic.KnownSafesSound | 1.minesweeper/minesweeper.py:112-118 | for a true sentence, no cell reported by known_safes is a mine |
| SentenceLogic.MinedByKeepsSurplus | 1.minesweeper/minesweeper.py:120-127 | mark_mine preserves the number of cells minus the count, so whether the sentence says "all mines" never changes |
| SentenceLogic.MinedByIdempotent | 1.minesweeper/minesweeper.py:120-127 | a second mark_mine of the same cell changes nothing |
| SentenceLogic.ClearedByIdempotent | 1.minesweeper/minesweeper.py:130-136 | mark_safe never changes the count, and a second call on the same cell changes nothing |
| SentenceLogic.MinedByHolds | 1.minesweeper/minesweeper.py:120-127 | marking a real mine keeps a true sentence true |
| SentenceLogic.ClearedByHolds | 1.minesweeper/minesweeper.py:130-136 | marking a really safe cell keeps a true sentence true |
| SentenceLogic.UnguardedMarksBreakBounds | 1.minesweeper/minesweeper.py:120-136 | the guards do not keep the count between 0 and the number of cells: mark_mine on a "no mines" sentence gives count -1, and mark_safe on an "all mines" sentence leaves more mines than cells |
| SentenceLogic.MinedByStep | 1.minesweeper/minesweeper.py:120-127 | one more mark_mine after a set of them equals marking the enlarged set, so the order in which a set is visited does not matter |
| SentenceLogic.ClearedByStep | 1.minesweeper/minesweeper.py:130-136 | the same for mark_safe |
| SentenceLogic.MarkNothing | 1.minesweeper/minesweeper.py:120-136 | marking no cell leaves a sentence unchanged |
| SentenceLogic.MinedBySetHolds | 1.minesweeper/minesweeper.py:120-127 | marking a set of real mines keeps a true sentence true |
| SentenceLogic.ClearedBySetHolds | 1.minesweeper/minesweeper.py:130-136 | marking a set of really safe cells keeps a true sentence true |
| MinesweeperGame.Sentence.constructor | 1.minesweeper/minesweeper.py:94-96 | the new sentence has the given cells and count |
| MinesweeperGame.Sentence.Equals | 1.minesweeper/minesweeper.py:98-99 | two sentences are equal exactly when their cells and counts are equal |
| MinesweeperGame.Sentence.MarkMine | 1.minesweeper/minesweeper.py:120-127 | the sentence afterwards is MinedBy of the sentence before: `c` and one mine are removed when `c` is a cell and the sentence does not say "all mines", and nothing changes otherwise |
| MinesweeperGame.Sentence.MarkSafe | 1.minesweeper/minesweeper.py:130-136 | the sentence afterwards is ClearedBy of the sentence before: `c` is removed when it is a cell and the count is not zero, and nothing changes otherwise |
| MinesweeperGame.MinesweeperAI.constructor | 1.minesweeper/minesweeper.py:144-158 | the agent starts with no moves, no known mines or safe cells, and no sentences |
| MinesweeperGame.MinesweeperAI.MarkMine | 1.minesweeper/minesweeper.py:160-167 | `c` is added to the mines and every sentence, in list order, gets mark_mine. The list object, its length, its order and the played cells stay the same |
| MinesweeperGame.MinesweeperAI.MarkSafe | 1.minesweeper/minesweeper.py:169-176 | `c` is added to the safe cells and every sentence gets mark_safe. The list and the other fields stay the same |
| MinesweeperGame.MinesweeperAI.MarkMines | 1.minesweeper/minesweeper.py:228-231 | calling mark_mine for every cell of a set, in whatever order the set is visited, equals marking the whole set |
| MinesweeperGame.MinesweeperAI.MarkSafes | 1.minesweeper/minesweeper.py:224-227 | calling mark_safe for every cell of a set, in any order, equals marking the whole set |
| MinesweeperGame.MinesweeperAI.NeighbourSentence | 1.minesweeper/minesweeper.py:195-223 | a fresh sentence whose cells are exactly those on the board, within one row and column of `cell`, and neither played nor known safe; its count is `count` |
| MinesweeperGame.MinesweeperAI.Settle | 1.minesweeper/minesweeper.py:224-234 | a "no mines" sentence marks its cells safe, an "all mines" sentence marks them mines, and any other sentence is appended to the list |
| MinesweeperGame.MinesweeperAI.Observe | 1.minesweeper/minesweeper.py:193-234 | marks `cell` safe and played, builds the neighbour sentence and settles it. The list keeps its old sentences and gains at most one, a fresh one |
| MinesweeperGame.MinesweeperAI.ClearUnmined | 1.minesweeper/minesweeper.py:238-256 | when the known mines among a sentence's cells account for its whole count, its other cells are marked safe one at a time, until only known mines remain |
| MinesweeperGame.MinesweeperAI.Conclude | 1.minesweeper/minesweeper.py:257-264 | the sentence as the pass finds it marks its cells safe when it has cells and count 0, and mines when its count equals its number of cells and is positive |
| MinesweeperGame.MinesweeperAI.ResolveSentence | 1.minesweeper/minesweeper.py:236-264 | one step of the pass: the first part, then the second part, on the same sentence |
| MinesweeperGame.MinesweeperAI.ResolvePass | 1.minesweeper/minesweeper.py:236-264 | one step for each sentence, in list order, with the list itself unchanged |
| MinesweeperGame.MinesweeperAI.AddKnowledge | 1.minesweeper/minesweeper.py:178-264 | the observation, then one resolution pass over the resulting list, as the function KnowledgeLogic.AddKnowledge |
| MinesweeperGame.MinesweeperAI.MakeSafeMove | 1.minesweeper/minesweeper.py:266-286 | returns a cell known safe and not yet played, and returns nothing exactly when there is none. It changes nothing |
| MinesweeperGame.MinesweeperAI.MakeRandomMove | 1.minesweeper/minesweeper.py:288-331 | never returns a known mine. The move is a board cell not yet played, or a cell harvested from a sentence with at least three more cells than mines while no mine is known. It returns nothing only when every board cell is a known mine or already played |
| MinesweeperGame.Minesweeper.constructor | 1.minesweeper/minesweeper.py:10-34 | the grid has the board's size and holds a mine exactly at the cells of the given layout; no mine is flagged yet |
| MinesweeperGame.Minesweeper.IsMine | 1.minesweeper/minesweeper.py:51-53 | the grid says "mine" exactly when the cell is one of the board's mines |
| MinesweeperGame.Minesweeper.NearbyMines | 1.minesweeper/minesweeper.py:55-78 | the count equals the number of mines on the board within one row and column of `cell`, the cell itself excluded |
| MinesweeperGame.RevealSafeCell | 1.minesweeper/minesweeper.py:178-192 | the agent's new state is add_knowledge of its old state, given the cell and the number of mines the board reports around it. If the agent's knowledge was true of the mine layout, it stays true, and no cell is both a known mine and known safe |
| KnowledgeLogic.Around | 1.minesweeper/minesweeper.py:197-211 | the reference set for the scan in NeighbourSentence: the board cells within one row and one column of `cell` |
| KnowledgeLogic.AroundIsClippedBlock | 1.minesweeper/minesweeper.py:197-208 | that set is the block the program scans: rows from `cell.0 - 1` raised to 0 up to `cell.0 + 2` lowered to the height, and the same for columns |
| KnowledgeLogic.Pass | 1.minesweeper/minesweeper.py:236-264 | the pass never adds or drops a sentence and never changes the played cells |
| KnowledgeLogic.MarkNone | 1.minesweeper/minesweeper.py:160-176 | marking no cells changes nothing |
| KnowledgeLogic.MarkMineStep | 1.minesweeper/minesweeper.py:160-167 | the agent's mark_mine after marking a set of cells as mines equals marking the enlarged set |
| KnowledgeLogic.MarkSafeStep | 1.minesweeper/minesweeper.py:169-176 | the same for mark_safe |
| KnowledgeLogic.ResolveGrows | 1.minesweeper/minesweeper.py:236-264 | one step of the pass only adds to the played, mine and safe sets |
| KnowledgeLogic.PassGrows | 1.minesweeper/minesweeper.py:236-264 | the pass only adds facts, however far it gets |
| KnowledgeLogic.AddKnowledgeGrows | 1.minesweeper/minesweeper.py:178-264 | afterwards `cell` is played and known safe, the played cells grow by `cell` alone, no fact is lost, and at most one sentence is added |
| KnowledgeLogic.ObserveCases | 1.minesweeper/minesweeper.py:193-234 | every cell of the new sentence is on the board, next to `cell`, not `cell`, and was neither played nor known safe. Count 0 marks them all safe and appends nothing; a count equal to the number of cells marks them all mines and appends nothing; otherwise the sentence is appended |
| KnowledgeLogic.ResolveSettles | 1.minesweeper/minesweeper.py:236-264 | after one step: the cells that are not known mines of a sentence whose known mines account for its count are safe; a visited sentence with cells and count 0 has all its cells safe; one with as many cells as a positive count has all its cells mines |
| KnowledgeLogic.PassSettles | 1.minesweeper/minesweeper.py:236-264 | at the end of the pass, every visited "no mines" sentence has all its cells it held at visit time in the safe set, and every "all mines" sentence has them in the mine set |
| KnowledgeLogic.MarkMinesSound | 1.minesweeper/minesweeper.py:160-167 | marking real mines keeps all knowledge true of the layout |
| KnowledgeLogic.MarkSafesSound | 1.minesweeper/minesweeper.py:169-176 | marking really safe cells keeps all knowledge true |
| KnowledgeLogic.MarkSafeSound | 1.minesweeper/minesweeper.py:169-176 | marking one really safe cell keeps all knowledge true |
| KnowledgeLogic.ResolveSound | 1.minesweeper/minesweeper.py:236-264 | each step of the pass marks only true facts |
| KnowledgeLogic.PassSound | 1.minesweeper/minesweeper.py:236-264 | the whole pass marks only true facts |
| KnowledgeLogic.AddKnowledgeSound | 1.minesweeper/minesweeper.py:178-264 | given a safe cell and the true number of mines around it, add_knowledge keeps every fact and sentence true, and no cell ends up both a mine and safe |
| TicTacToeRules.InitialState | 0.tictactoe/tictactoe.py:12-18 | a 3 x 3 board with every square empty |
| TicTacToeRules.InitialPlayer | 0.tictactoe/tictactoe.py:12-35 | X moves first on the initial board |
| TicTacToe.Player | 0.tictactoe/tictactoe.py:21-35 | the counting loop returns O exactly when there are fewer O marks than X marks, else X |
| TicTacToeRules.ResultKeepsTurns | 0.tictactoe/tictactoe.py:56-69 | on a board reached by alternate play, playing an empty square keeps the counts balanced and hands the turn to the other player |
| TicTacToeRules.PlayCounts | 0.tictactoe/tictactoe.py:56-69 | writing a mark on an empty square adds one of that mark, removes one empty square and leaves the other counts alone |
| TicTacToe.Actions | 0.tictactoe/tictactoe.py:38-53 | the scan returns exactly the list TicTacToeRules.Actions |
| TicTacToeRules.ActionsExact | 0.tictactoe/tictactoe.py:38-53 | the legal moves are exactly the empty squares, in strictly increasing row-major order (so each appears once), and there are as many of them as empty squares |
| TicTacToeRules.EmptyBeforeSound | 0.tictactoe/tictactoe.py:45-52 | everything collected from the first `n` squares is an empty square before `n`, in increasing order |
| TicTacToeRules.EmptyBeforeComplete | 0.tictactoe/tictactoe.py:45-52 | every empty square before `n` is collected |
| TicTacToeRules.EmptyBeforeCount | 0.tictactoe/tictactoe.py:45-52 | as many squares are collected as there are empty squares before `n` |
| TicTacToeRules.Play | 0.tictactoe/tictactoe.py:56-69 | a new 3 x 3 board equal to the old one on every square except the played one, which holds the mark |
| TicTacToe.Place | 0.tictactoe/tictactoe.py:56-69 | the copying scan writes the mark only on the square equal to the action, and leaves the board unchanged when no square is |
| TicTacToe.Result | 0.tictactoe/tictactoe.py:56-69 | the board with the player to move's mark on the action's square and nothing else changed |
| TicTacToe.Winner | 0.tictactoe/tictactoe.py:72-102 | X when one of the eight lines is all X, else O when one is all O, else empty |
| TicTacToeRules.OnlyMoverCanWin | 0.tictactoe/tictactoe.py:72-102 | on a board without a winner, one mark can only make its own player the winner |
| TicTacToe.Terminal | 0.tictactoe/tictactoe.py:105-118 | the game is over exactly when someone has a line or no square is empty |
| TicTacToeRules.FullIffNoEmpty | 0.tictactoe/tictactoe.py:109-117 | the count of empty squares is zero exactly when no square is empty |
| TicTacToe.Utility | 0.tictactoe/tictactoe.py:121-130 | 1 exactly when X has a line, -1 exactly when O has one and X has not, 0 exactly when neither has |
| TicTacToeRules.NotTerminalHasMove | 0.tictactoe/tictactoe.py:137-142 | a game that is not over has at least one legal move |
| TicTacToe.Minimax | 0.tictactoe/tictactoe.py:133-189 | the move returned is exactly the rule-level chooser's |
| TicTacToe.ChooseAmong | 0.tictactoe/tictactoe.py:141-189 | the scan returns the first winning move, else the last blocking move, else the fallback choice |
| TicTacToe.TryMove | 0.tictactoe/tictactoe.py:150-170 | whether the move wins at once for the player to move, and if not, whether the opponent playing there would give somebody a line |
| TicTacToe.Fallback | 0.tictactoe/tictactoe.py:174-189 | the centre when it is free and fewer than eight squares are, else the first free corner, else the first free square |
| TicTacToeRules.MinimaxLegal | 0.tictactoe/tictactoe.py:133-189 | the chooser returns nothing exactly when the game is over, and otherwise a legal move, an empty square |
| TicTacToeRules.MinimaxWins | 0.tictactoe/tictactoe.py:146-153 | when some legal move wins at once for the player to move, the choice is the first such move in row-major order |
| TicTacToeRules.MinimaxBlocks | 0.tictactoe/tictactoe.py:154-173 | when no move wins at once but the opponent would get a line on some square, the choice is the last such square in row-major order |
| TicTacToeRules.TestsReadAsLines | 0.tictactoe/tictactoe.py:150-170 | while the game is not over, the winning test means the mover gets a line there, and the blocking test means the opponent would get one |
| TicTacToeRules.ChooseByIn | 0.tictactoe/tictactoe.py:146-189 | the chooser picks something exactly when there are moves, and always picks one of them |
| TicTacToeRules.ChooseByWins | 0.tictactoe/tictactoe.py:146-153 | when a move wins, the pick is the first winning move |
| TicTacToeRules.ChooseByBlocks | 0.tictactoe/tictactoe.py:154-173 | when no move wins and some blocks, the pick is the last blocking move |
| TicTacToeRules.WhereStep | 0.tictactoe/tictactoe.py:146-171 | scanning one more move gives that move, when it qualifies, or the answer so far |
| TicTacToeRules.FirstWhereIsFirst | 0.tictactoe/tictactoe.py:146-153 | the forward search finds nothing exactly when no move qualifies, and otherwise finds the first that does |
| TicTacToeRules.LastWhereIsLast | 0.tictactoe/tictactoe.py:154-173 | the backward search finds nothing exactly when no move qualifies, and otherwise finds the last that does |

## Left out

- MinesweeperGame.Minesweeper.constructor: the random placement of mines (1.minesweeper/minesweeper.py:26-31) is replaced by a `layout` parameter holding the mines.
- `Minesweeper.print` and `Sentence.__str__` produce console text and are not modelled.
- MinesweeperGame.MinesweeperAI.MakeSafeMove and MinesweeperGame.MinesweeperAI.MakeRandomMove: `random.choice` followed by a walk over the set is modelled as a free choice of any element of the candidate set.
- `for elem in some_set` over cells visits them in an order the program does not fix. The methods pick the next cell with a free choice, and the lemmas show the result does not depend on the order.
- Loops that test membership by comparing with every element of a set (`for elem in self.moves_made: if elem == (i, j)`) are modelled as set membership.
- MinesweeperGame.MinesweeperAI.MakeRandomMove: its contract states what the program does, not that harvested cells avoid mines. Its flag becomes 1 as soon as any mine is known, whatever the cell, so sentence cells are harvested only while no mine is known at all.
- MinesweeperGame.Minesweeper.Won: a predicate with no contract of its own. Nothing in the model flags mines, so there is no operation to relate it to.
- MinesweeperGame.Minesweeper.IsMine: requires a cell on the board. Python would also accept negative indices and read from the other end of a row; no caller in the program does that.
- MinesweeperGame.MinesweeperAI.Valid only asks that the list never holds the same sentence object twice. This holds for every list the agent builds, and the methods rely on it.
- The soundness lemmas need the explicit hypothesis that the observations are true. The program does not check this. `SentenceLogic.UnguardedMarksBreakBounds` shows that its update rules alone do not keep sentences meaningful.
- Tic-tac-toe boards are values (`seq<seq<Mark>>`). The program copies the board before writing into it and never changes the caller's board, so nothing about aliasing is lost.
- TicTacToe.Minimax: the single Python function is split into `ChooseAmong`, `TryMove` and `Fallback`. The statements and their order are unchanged.
- The rest of the repository is not part of this model: heredity, pagerank, questions, shopping, traffic and parser.
- `runner.py`, the game loop with its graphical interface, is not part of this model. `RevealSafeCell` stands for one turn of it.
