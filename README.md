# Connect Four search core, modelled in Dafny

This project models the game logic of `projectmain.py`, a Connect Four game
where a human (cell value 1) plays against the computer (cell value -1). The
model covers:

- the terminal tests `is_full` and `is_winner`;
- the move generator `generate_moves`;
- the sliding-window heuristic `evaluate`;
- the depth-limited fail-soft alpha-beta search `alpha_beta`;
- the board write of `animate_drop`, the computer's root search call and
  the end-of-game classification of `run_game`.

The board is a value (`Grid.Board`: a rectangular `seq<seq<int>>` with row 0
on top), except in `Play.AnimateDrop`, where the live board is an `array2`
changed in place. The loops of `generate_moves`, `evaluate`, `alpha_beta`
and `animate_drop` become methods with loop invariants, each proved against
a specification function. `is_full` and `is_winner` only compute a value,
so they are pure functions: `is_full`'s `all(...)` is a quantifier, and
`is_winner`'s nested scan is a family of recursive functions.

| module | file | what it holds |
|---|---|---|
| `Grid` | `grid.dfy` | board, directions, lowest empty cell, drop, negation, gravity |
| `Rules` | `rules.dfy` | `is_full`, `is_winner` and what a win is |
| `Moves` | `moves.dfy` | `generate_moves` and its specification |
| `Evaluation` | `evaluation.dfy` | `evaluate`, its window rule, antisymmetry and bound |
| `Search` | `search.dfy` | plain minimax, the column it picks, `alpha_beta` |
| `Play` | `play.dfy` | the in-place drop, the root call, the outcome |

The main results:

- `Search.AlphaBeta` is fail-soft with respect to plain minimax over the
  same moves. A score strictly inside the window is the minimax value, and
  the column returned with it is the leftmost column that reaches it.
- `Play.ComputerMove` states the consequence for the root call with window
  (-1e9, 1e9): on every board the menu offers, pruning changes neither the
  score nor the chosen column.
- `Evaluation.ScoreAntisymmetric` shows the heuristic favours neither side.
- `Rules.IsWinner` is exactly the existence of a run of `win_len` cells.
- `Moves.LegalMovesSpec` and `Moves.FullIffNoMoves` show that the generated
  moves are exactly the open columns, and that there are none exactly when
  the board is full.

An empty board searched at depth 1 does not favour the centre column. In
the code, only the single new piece's windows count toward the score. On
the 6 x 7 board (6 rows, 7 columns):

- a piece in any of columns 0-3 scores 22 (11 for the rightward window
  + 11 for the up-right one);
- a piece in any of columns 4-6 scores 0;
- the strict `>` keeps the first of the equal values, so the search picks
  column 0.

On a board of at least 4 rows, a column c scores 22 when c <= cols - 4 and
0 otherwise. This gives columns 0-4 on the 7 x 8 board and columns 0-5 on
the 8 x 9 board. Column 0 is chosen on every menu board. The model
follows the code here. This case is not stated as a lemma of its own.

## Model

| member | source | states |
|---|---|---|
| Rules.IsWinner | projectmain.py:117-125 | true exactly when pl owns some cell that starts a run of n of pl's cells on the board in one of the four directions |
| Rules.IsFull | projectmain.py:114-115 | `is_full`: no cell of the top row is empty; FullTopRowFillsBoard and Moves.FullIffNoMoves state what this means |
| Rules.FullTopRowFillsBoard | projectmain.py:114-115 | on a board obeying gravity, a top row with no empty cell means no cell of the board is empty |
| Rules.WinFollowsOwnership | projectmain.py:117-125 | a win depends only on ownership: if q owns in b' every cell pl owns in b, a win of pl in b is a win of q in b' |
| Rules.DropKeepsOwnWin | projectmain.py:117-125 | dropping a piece of pl never removes a win of pl |
| Rules.DropKeepsOtherWins | projectmain.py:117-125 | dropping a piece of pl neither creates nor removes a win of any other player |
| Rules.NegateSwapsWinner | projectmain.py:117-125 | after swapping every piece's owner, -pl wins exactly when pl won before |
| Grid.LowestEmpty | projectmain.py:132-133 | the landing row of a column holds an empty cell and every cell below it is occupied |
| Grid.Drop | projectmain.py:134-135 | the board after pl drops into column c, the same size as the input; DropChangesOneCell states its contents (the write at lines 134-135 and 196) |
| Grid.DropChangesOneCell | projectmain.py:134-135 | a drop writes pl into the lowest empty cell of the column and leaves every other cell unchanged |
| Grid.DropKeepsSettled | projectmain.py:132-135 | a drop keeps a board obeying gravity (no empty cell under an occupied one) in that state |
| Moves.LegalMoves | projectmain.py:127-138 | the list `generate_moves` returns; LegalMovesSpec states what it holds |
| Moves.LegalMovesSpec | projectmain.py:127-138 | the generated moves are exactly the columns whose top cell is empty, in ascending order, each paired with the board after pl drops there |
| Moves.GenerateMoves | projectmain.py:127-138 | the loop over columns with its bottom-up scan and board copy returns exactly LegalMoves |
| Moves.FullIffNoMoves | projectmain.py:114-115 | `is_full` holds exactly when no move is generated, for either player |
| Moves.MoveChangesOneCell | projectmain.py:130-135 | each generated board differs from the input only at the lowest empty cell of its column, which now holds pl |
| Moves.MovesKeepSettled | projectmain.py:130-135 | from a board obeying gravity every generated board obeys gravity |
| Evaluation.CollectWindow | projectmain.py:147-151 | the collected cells are the window's cells that lie on the board, in step order |
| Evaluation.ScoreWindow | projectmain.py:147-158 | what one window adds to the score equals WindowScore |
| Evaluation.Evaluate | projectmain.py:140-159 | the triple loop returns Score, the sum over occupied start cells and the four directions of WindowScore |
| Evaluation.WindowCellsOnBoard | projectmain.py:147-151 | a window collects at most n cells, and exactly n when all its steps are on the board |
| Evaluation.WindowCellsInOrder | projectmain.py:147-151 | a window lying on the board collects its cells in step order |
| Evaluation.WindowRule | projectmain.py:145-152 | an empty start cell contributes nothing; a window leaving the board scores 0; otherwise it is scored on its n cells in order |
| Evaluation.Score | projectmain.py:140-159 | the value `evaluate` returns; WindowRule, ScoringRule, ScoreAntisymmetric, EmptyBoardScoresZero and ScoreBounded state its meaning |
| Evaluation.ScoringRule | projectmain.py:152-158 | a window with both players' pieces or none scores 0; k computer pieces alone score 10^(k-1)+10; k human pieces alone score -(10^(k-1)+10) |
| Evaluation.CountPositiveIffIn | projectmain.py:153-154 | a value is counted at least once exactly when it occurs in the list |
| Evaluation.ScoreAntisymmetric | projectmain.py:140-159 | handing every piece to the other player negates the score |
| Evaluation.EmptyBoardScoresZero | projectmain.py:140-159 | an empty board scores 0 for every size and run length |
| Evaluation.WindowValueBounded | projectmain.py:152-158 | one window adds or takes away at most 10^(n-1)+10 |
| Evaluation.ScoreBounded | projectmain.py:140-159 | no board scores more than rows x cols x 4 x (10^(n-1)+10) either way |
| Search.Cutoff | projectmain.py:162 | the stop test: a human win, a computer win, a full board, or no depth left |
| Search.Minimax | projectmain.py:161-181 | the reference `alpha_beta` is proved against: the evaluation at a cutoff, otherwise the largest child value for -1 and the smallest for any other player, with no pruning |
| Search.SeqMax | projectmain.py:168-169 | the largest child value is one of them and no child exceeds it |
| Search.SeqMin | projectmain.py:177-178 | the smallest child value is one of them and no child is below it |
| Search.ChildValueAt | projectmain.py:166-167 | the i-th child value is the minimax value, one level down with the opponent to move, of the i-th generated board |
| Search.BestColumn | projectmain.py:162-181 | no column exactly at a cutoff; otherwise an open column |
| Search.BestColumnIsLeftmostBest | projectmain.py:168-169 | the chosen column is the leftmost generated column whose child reaches the minimax value, because later equal values do not replace it |
| Search.MaxStep | projectmain.py:166-171 | one turn of the maximising loop keeps its progress invariant, and a cut-off leaves a best value between beta and the largest child value |
| Search.MinStep | projectmain.py:175-180 | one turn of the minimising loop keeps its progress invariant, and a cut-off leaves a best value between the smallest child value and alpha |
| Search.MaxOutcome | projectmain.py:166-172 | what the maximising loop leaves is a fail-soft answer for the node, and inside the window its column is BestColumn |
| Search.MinOutcome | projectmain.py:175-181 | what the minimising loop leaves is a fail-soft answer for the node, and inside the window its column is BestColumn |
| Search.OtherPlayerSearchesAsHuman | projectmain.py:164-181 | any player code other than -1 takes the minimising branch, so it has the human's minimax value and column |
| Search.SearchChild | projectmain.py:167 | the recursive call on the i-th child (here and at line 176) returns a fail-soft answer for that child's minimax value |
| Search.MaximisingTurn | projectmain.py:164-172 | the computer's branch returns an open column and a fail-soft answer for the node's minimax value, with BestColumn inside the window |
| Search.MinimisingTurn | projectmain.py:173-181 | the human's branch returns an open column and a fail-soft answer for the node's minimax value, with BestColumn inside the window |
| Search.AlphaBeta | projectmain.py:161-181 | at a cutoff: the evaluation and no column; otherwise an open column. The score is fail-soft for plain minimax, and strictly inside the window it is the minimax value with the leftmost best column |
| Search.MinimaxBounded | projectmain.py:161-181 | every minimax value lies within the evaluation's bound |
| Play.AnimateDrop | projectmain.py:188-196 | the live board becomes exactly the board with pl dropped into the lowest empty cell of col |
| Play.DropIsGeneratedMove | projectmain.py:255-256 | a drop into a column the click guard accepts gives the board that move generation offers for that column |
| Play.MenuBoardsFitWindow | projectmain.py:74 | every board size of the menu keeps all evaluations strictly inside (-1e9, 1e9) with runs of 4 |
| Play.ComputerMove | projectmain.py:265 | the root call returns the plain minimax value and the leftmost best column, or no column at a cutoff |
| Play.Classify | projectmain.py:269-275 | win exactly when the human has a run; lose exactly when only the computer has one; draw exactly when the board is full and nobody has one |
| Play.RunningIffSearchContinues | projectmain.py:162-163 | with depth left, the game goes on exactly when the root search does not stop, and then the computer gets a column |

## Left out

- Drawing, animation frames, sounds, fonts and the menu screens are left
  out. They are pygame I/O. (`animate_drop` is modelled only by its board
  write, lines 188 and 196.)
- The event loop of `run_game` (lines 240-275) is left out. That includes
  the game state it keeps: the turn variable `current`, the `state` and
  `result` flags, the turn switches at lines 257 and 268, the restart at
  line 260 (a fresh empty board and reset flags) and quit. The model covers
  the pieces of that loop which touch the board or decide the outcome:
  - the click guard of line 255 (`Play.DropIsGeneratedMove`);
  - the computer's call at line 265 (`Play.ComputerMove`);
  - the drops at lines 256 and 267 (`Play.AnimateDrop`);
  - the end-of-game test at lines 269-275 (`Play.Classify`).
- Boards with no rows, or with rows of different lengths, are outside the
  model. `Grid.Board` requires at least one row and equal row lengths.
  - On a board with no rows, the `board[0]` reads at lines 115, 118, 128
    and 142 raise IndexError.
  - On a ragged board, `is_full` never fails, because it reads row 0 only.
    The other three take `cols` from row 0. A row shorter than row 0 can
    make them raise IndexError at lines 121/123, 133 and 145, but only if
    their scans reach it. Cells past `len(board[0])` are never read.

  The game only builds rectangular boards with at least 6 rows (lines 74
  and 240), so no reachable behaviour is lost.
- Python's `-float('inf')` / `float('inf')` for `best` are modelled as "no
  column chosen yet". The first move always replaces them, because every
  evaluation is finite.
- The root window `-1e9, 1e9` is modelled as exact integers. The floats
  compare exactly against the integer scores.
- The search's `depth` is a `nat`. The game only calls it with the
  difficulty (2, 4 or 6) and with `depth - 1` from a positive depth.
- Board copies (`[row[:] for row in board]`) are values in the model, so
  aliasing between the live board and the copies is not modelled. The live
  board is an array only in `Play.AnimateDrop`.
- `SearchChild`, `MaximisingTurn` and `MinimisingTurn` are pieces of the
  one Python function `alpha_beta`, split out so that each piece is proved
  on its own. `CollectWindow` and `ScoreWindow` likewise split the body of
  the direction loop of `evaluate`.
- Play.AnimateDrop: requires an empty cell in the column. Without one,
  Python's `next(...)` raises `StopIteration`. The game never calls it that
  way. The human's click is checked at line 255, and the computer's column
  is always open, as `Search.AlphaBeta` states.
- Play.ComputerMove: states equality with plain minimax only for boards
  whose evaluations stay inside the root window. `Play.MenuBoardsFitWindow`
  shows that this covers every board size the menu offers. On larger
  boards only the fail-soft contract of `Search.AlphaBeta` applies.
