# Tic-tac-toe engine and session rules

A Dafny model of the game logic of a browser tic-tac-toe page (`src/App.jsx`).
The page plays human against human or human against the computer, with three
computer difficulties. The model covers:

- the win evaluator over the eight fixed lines (`board.dfy`, module `Board`);
- the easy policy (a random empty cell) and the medium policy (the first empty
  cell that wins at once, found by writing and clearing trial marks in the
  board array) (`greedy.dfy`, module `Greedy`);
- the hard policy: an in-place minimax search with flat scores. An O win is
  +10, an X win is -10 and a full board is 0. O maximises, X minimises, and
  ties go to the first empty cell (`minimax.dfy`, module `GameTree`);
- the session: a `Game` object holding the board, the player to move, the
  game-over flag, the mode, the difficulty and the score. Each handler of the
  page is one method that updates the object (`session.dfy`, module `Session`).

Imperative code stays imperative. The medium and hard policies are methods on
an `array<Cell>` that write and undo trial marks, and each is proved equal to
a pure function (`FirstWinningCell`, `Minimax`). The properties of the game
tree are proved about those functions.

The computer's reply is delayed by a timer in the page. Here it is a separate
call: `HandleClick` returns the board array it scheduled, and a later
`ComputerMove` call on that same array plays the reply. `Math.random` is an
oracle argument `pick`, an index into the list of empty cells.

Two details of the session rules, as the code has them:

- A mode change keeps the score (`src/App.jsx:183-187`); only a difficulty
  change zeroes it (`src/App.jsx:189-193`). `HandleModeChange` and
  `HandleDifficultyChange` model exactly that.
- The computer's reply is scheduled when the player who just moved, read
  before the toggle, was X (`src/App.jsx:56`). `HandleClick` models that test.

## Model

| member | source | states |
|---|---|---|
| Board.Winner | src/App.jsx:114-121 | The evaluator itself: no contract of its own. `Board.WinnerSpec` (and `Board.WinnerFromSpec` for the scan) characterises it. |
| Board.WinnerFromSpec | src/App.jsx:115-120 | The scan from line k on finds nothing exactly when no line from k on holds three equal marks. Otherwise it returns the mark of the first such line from k on. |
| Board.WinnerSpec | src/App.jsx:114-121 | The evaluator returns None exactly when none of the 8 lines (`src/App.jsx:4-13`) holds three equal marks. Otherwise it returns the mark of the first such line in list order. |
| Board.OnlyMoverCanWin | src/App.jsx:44-47 | Marking an empty cell of a board that has no winner gives either no winner or the mover as winner. So the winner credited after a move is always the mover. |
| Board.EmptyIndicesFrom | src/App.jsx:96 | The empty cells from index k on, strictly ascending, with none missing. |
| Board.EmptyIndices | src/App.jsx:125 | The list of empty cells: only empty cells, strictly ascending, every empty cell present. The list is empty exactly when the board is full (`every(Boolean)`, `src/App.jsx:48`). |
| Board.FillShrinks | src/App.jsx:140-143 | Marking an empty cell strictly shrinks the set of empty cells. This is the search's termination measure. |
| Greedy.RandomMove | src/App.jsx:95-98 | For a draw within the list of empty cells, the random policy returns an index on the board whose cell is empty. |
| Greedy.RandomMoveReachesEveryEmptyCell | src/App.jsx:95-98 | Every empty cell is the random policy's answer for some draw. |
| Greedy.FirstWinningCell | src/App.jsx:100-112 | Returns None exactly when no empty cell from k on wins at once for the player. Otherwise it returns the lowest such cell. |
| Greedy.GetBestMove | src/App.jsx:100-112 | The in-place scan leaves the board exactly as it found it. It returns the lowest empty index whose trial mark makes a winner, or None when there is none. |
| Greedy.MediumDoesNotBlock | src/App.jsx:100-112 | On `[X,X,_,_,O,_,_,_,_]` O has no immediate win, so the medium policy returns None even though X wins at cell 2: it does not block. |
| GameTree.Minimax | src/App.jsx:124-174 | The search as a function: no contract of its own. `GameTree.MinimaxScores`, `GameTree.MinimaxPicksEmptyCell`, `GameTree.MinimaxPicksBestScore` and `GameTree.MinimaxPicksFirstBest` characterise it, and `GameTree.Search` is proved equal to it. |
| GameTree.SelectBest | src/App.jsx:154-173 | The selection over the candidate list returns nothing exactly when the list is empty. |
| GameTree.SelectBestAt | src/App.jsx:154-173 | The selected candidate sits at some position k. No candidate is strictly better for the player. Every candidate before k is strictly worse, so ties go to the first. |
| GameTree.PickBest | src/App.jsx:154-171 | The selection loop, which replaces the best only on a strict improvement (`>` for O, `<` for X), yields the selection of the whole list. |
| GameTree.ScoreMoves | src/App.jsx:136-152 | The candidate list has one record per empty spot, in the spots' order, with that spot's index. |
| GameTree.ScoreMovesSnoc | src/App.jsx:137-151 | One more round of the candidate loop appends the next spot, scored by the search for the other player after the mover's mark. |
| GameTree.ScoreMovesAt | src/App.jsx:138-148 | Candidate q is spot q, scored by the search for the other player on the board with the mover's mark in that spot. |
| GameTree.MinimaxScores | src/App.jsx:127-134 | The search's score is always -10, 0 or +10. It is -10 with no move when X has won, and +10 with no move when O has won. It is 0 with no move on a full board with no winner. Any other board gets a move. |
| GameTree.SelectedCandidate | src/App.jsx:136-173 | On a non-terminal board the result is candidate k of the list: spot k and its child score. No candidate beats it and every earlier one is strictly worse. |
| GameTree.MinimaxPicksEmptyCell | src/App.jsx:124-174 | On a non-terminal board the search returns a move. The move is an empty cell, and the search's score is that cell's child score. |
| GameTree.MinimaxPicksBestScore | src/App.jsx:154-171 | No empty cell has a child score better for the player than the one chosen: O gets the maximum and X the minimum. |
| GameTree.MinimaxPicksFirstBest | src/App.jsx:154-171 | Every empty cell below the chosen one has a strictly worse child score for the player, so ties go to the lowest index. |
| GameTree.CandidateOf | src/App.jsx:125-152 | Each empty cell appears in the candidate list, before every larger empty cell, scored with its child score. |
| GameTree.Search | src/App.jsx:124-174 | The in-place recursive search leaves the board exactly as it found it and returns the minimax outcome of the board it was given. |
| GameTree.ScoreCandidates | src/App.jsx:136-152 | The candidate loop leaves the board unchanged and builds the candidate list of the board. |
| GameTree.TryMove | src/App.jsx:139-150 | Writing a trial mark, searching for the other player and clearing the mark leaves the board unchanged and yields the child score. |
| Session.BlankIsOpen | src/App.jsx:16 | The empty board has no winner and is not full. |
| Session.ComputerChoice | src/App.jsx:64-73 | The computer chooses a cell exactly when a difficulty is set, and the chosen cell is an empty cell of the board. |
| Session.MediumTakesImmediateWin | src/App.jsx:68-70 | On medium, when some empty cell wins at once for O, the computer plays a winning cell no later than it, and O is then the winner. |
| Session.MediumMove | src/App.jsx:68-70 | The medium branch leaves the board unchanged and yields the medium choice: the first immediate win, else the drawn cell. |
| Session.HardMove | src/App.jsx:71-72 | The hard branch leaves the board unchanged and yields the hard choice: the search's move for O. |
| Session.Game.constructor | src/App.jsx:16-22 | The session starts with an empty board, X to move, the game running, no mode, no difficulty and a zero score. |
| Session.Game.UpdateScore | src/App.jsx:88-93 | Adds one to the winner's counter and changes nothing else in the score. |
| Session.Game.HandleClick | src/App.jsx:37-62 | A click on an occupied cell or a finished game changes nothing. Otherwise the mover's mark goes into a new copy of the board, then exactly one of three things happens. A win (always the mover's) adds to the mover's counter and ends the game. A full board adds a draw and ends the game. Otherwise the turn passes, and the board is handed to the computer exactly in computer mode when X moved. The board never shows a winner while the game runs. |
| Session.Game.ChooseMove | src/App.jsx:64-73 | The difficulty dispatch leaves the board unchanged and returns the computer's choice for the session's difficulty; on easy that is the drawn empty cell. |
| Session.Game.ComputerMove | src/App.jsx:64-86 | O is written into the chosen empty cell of the same array, which becomes the board. A win is always O's: it adds to O's counter and ends the game. Otherwise X is to move, and no draw is checked. |
| Session.Game.HandleReset | src/App.jsx:176-181 | An empty board, X to move and the game running. The score, mode and difficulty stay. |
| Session.Game.HandleModeChange | src/App.jsx:183-187 | Sets the mode, resets the board and clears the difficulty. The score stays. |
| Session.Game.HandleDifficultyChange | src/App.jsx:189-193 | Sets the difficulty, zeroes all three counters and resets the board. The mode stays. |

## Left out

- Loading and saving the board and score in `localStorage`, and their JSON encoding (`src/App.jsx:24-35`): browser I/O.
- The rendering and button wiring (`src/App.jsx:195-261`): user interface.
- The 500 ms timer before the computer's reply (`src/App.jsx:57-59`). The reply is an explicit `ComputerMove` call on the array `HandleClick` returns. Clicks between the two calls are still possible and are modelled by `HandleClick`.
- `Math.random` (`src/App.jsx:97`): replaced by the oracle argument `pick`, an index into the list of empty cells.
- React's batched state updates and stale closures. Fields are updated at once. `ComputerMove` reads the session's current difficulty, not the one captured when the timer was set.
- `isXNext` (`src/App.jsx:17, 178`): written but never read.
- The `-Infinity`/`Infinity` starting scores (`src/App.jsx:156, 164`). "No best move yet" is `None`, which every candidate improves on, exactly as every finite score beats an infinite start.
- A theorem that the hard policy never loses: the code does not state it, and proving it means exhausting the game tree.
- Session.Game.ComputerMove: requires a board with no winner and at least one empty cell, with `pick` in range. `HandleClick` only schedules such boards (its postcondition). On other boards the source writes to an `undefined` index or plays on after a win, which is not modelled.
- Session.Game.HandleClick: requires an index in 0..8. The grid only produces those.
- Session.ComputerChoice: with no difficulty set, the source writes `'O'` to the array property named `undefined`. That leaves the nine cells unchanged, and the model writes no cell.
