# A verified model of the YanNepocho chess engine

This project models the search-and-evaluate core of a small homemade chess
bot for lichess. The core is `lichess-bot-master/strategies.py`. The model
covers four parts:

- **Material count** (`countMaterial`). Each non-king piece adds its value
  (pawn 1, knight 3, bishop 3.2, rook 5, queen 9). White pieces add and
  Black pieces subtract.
- **Piece activity** (`getPieceActivity`). Each non-king piece adds the
  entry of its kind's piece-square table at its square. It also loses its
  full value when the source judges it "not defended".
- **Evaluation** (`evaluate`). A checkmate scores -9999 when White is to
  move and 9999 when Black is. Any other position scores material plus
  activity.
- **Search** (`alphabeta`, `YanNepochoEngine.search`). A fail-soft
  alpha-beta search runs to a fixed depth over one board that is changed
  with push and pop. The root keeps the first move that strictly improves
  the best score.

The chess rules engine (python-chess) is not modelled. Its answers are
inputs. An `Evaluation.Position` holds the 64 squares, the attacker counts
of each side on every square, the side to move, and the checkmate and
game-over flags. A `GameBoard.GameTree` holds a position and its legal
moves in enumeration order, each move with the position it leads to. The
shared mutable `chess.Board` becomes the class `GameBoard.Board`. It has a
fixed root tree and a stack of pushed moves. `Push` and `Pop` change the
stack, and `Current()` is the position the board shows.

Scores are exact `real` numbers, so 3.2 and 0.05 carry no rounding.

Files:

- `wrappers.dfy`: `Option`.
- `pieces.dfy`: colours, piece kinds, piece values.
- `tables.dfy`: the five piece-square tables, entry for entry.
- `evaluation.dfy`: material, activity, `Evaluate`, and their lemmas.
- `board.dfy`: the game tree and the push/pop board.
- `search.dfy`: alpha-beta, minimax, the root search, and their lemmas.

The loops of the source are `method`s with loop invariants. Each one is
proved equal to a recursive specification function:

- `CountMaterial` equals `Material`.
- `GetPieceActivity` equals `Activity`.
- `AlphaBeta` (with `MaximizingLoop` and `MinimizingLoop`) equals
  `AlphaBetaValue`.
- `Search` equals `FirstBest` over `RootScores`.

`Evaluate` and the lemmas use these functions.

## Behaviour kept exactly as the code has it

The code departs in several places from what the engine is meant to do.
The model keeps the code's behaviour, and a lemma shows each departure:

- **Inverted defence test.** Line 89 sets `defended = own <= opp`. So a
  piece loses its value when its own side attacks its square more often
  than the opponent does. A piece that the opponent attacks and nobody
  defends keeps its bonus. `Evaluation.DefendedQueenIsPenalised` shows it:
  a White queen on d4 that only White attacks scores 9 less than the same
  queen attacked once by Black.
- **No mirroring for Black.** Black pieces read the tables at the raw
  square index, not at the vertically mirrored square (same file, rank
  9 - r, index s XOR 56). `Evaluation.BlackPawnReadsRawSquare` shows it:
  a White pawn on a2 earns 0.05, but a Black pawn on a7, its mirror image,
  costs Black 0.5.
- **Odd table entries.** Pawn entry 32 is 0.5 and knight entry 17 is 0.5,
  where the rest of each table suggests 0.05. Both are kept.
  `Evaluation.OddPawnEntry` and `Evaluation.OddKnightEntry` show them: a
  lone White pawn on a5 or knight on b3 earns 0.5, while the same piece on
  the mirror-image square h5 or g3 earns 0.05.
- **Fixed root flag.** The root always searches the reply with
  `maximizingPlayer = False`, even when Black is to move (line 138).
  `Search.RootScoreIsMinimax` states that every root score is the
  minimizing value. `Search.RootMinimizesWhiteReply` shows the effect: a
  reply position where White can mate in one scores 0 (the draw White
  could also choose), while a search with White maximizing gives 9999.
- **Draws.** A game-over position that is not checkmate (a draw) is scored
  by material and activity, like any other leaf.
  `Search.DrawIsScoredLikeQuietLeaf` states it for every depth and window.

## Model

| member | source | states |
|---|---|---|
| `Tables.TableEntryBounded` | lichess-bot-master/strategies.py:73-77 | Every entry of the five piece-square tables lies in [-0.5, 0.5]. |
| `Evaluation.CountMaterial` | lichess-bot-master/strategies.py:15-38 | The 64-square loop returns `Material(squares)`. Empty squares and kings add nothing. Other pieces add their value, signed by colour. |
| `Evaluation.MaterialIsArmyDifference` | lichess-bot-master/strategies.py:15-38 | Material equals White's army value minus Black's. An army's value is 1·pawns + 3·knights + 3.2·bishops + 5·rooks + 9·queens. Kings, empty squares and where pieces stand do not matter. |
| `Evaluation.BalancedArmiesScoreZero` | lichess-bot-master/strategies.py:34-37 | When both sides have the same number of pieces of every non-king kind, material is exactly 0. |
| `Evaluation.MaterialSwapColors` | lichess-bot-master/strategies.py:34-37 | Changing the colour of every piece negates material. |
| `Evaluation.GetPieceActivity` | lichess-bot-master/strategies.py:72-116 | The 64-square loop returns `Activity(pos)`. That is the sum over squares of the table entry at raw index i, minus the full piece value when own attackers outnumber the opponent's, negated for Black. |
| `Evaluation.ActivityLocal` | lichess-bot-master/strategies.py:78-116 | When two positions differ only on square j (its piece and its attacker counts), their activity differs by exactly the change in square j's contribution. |
| `Evaluation.ActivitySwapColors` | lichess-bot-master/strategies.py:84-115 | Exchanging colours negates activity. This means recolouring every piece, exchanging the two sides' attacker counts, and giving the move to the other side. |
| `Evaluation.DefendedQueenIsPenalised` | lichess-bot-master/strategies.py:89-110 | A White queen on d4 attacked only by White scores exactly 9 less than the same queen attacked once by Black and defended by nobody. This is the inverted defence test. |
| `Evaluation.BlackPawnReadsRawSquare` | lichess-bot-master/strategies.py:91-115 | A lone White pawn on a2 has activity 0.05. A lone Black pawn on a7, the mirror-image square, has activity -0.5. The tables are not mirrored for Black. |
| `Evaluation.OddPawnEntry` | lichess-bot-master/strategies.py:73 | A lone White pawn on a5 (square 32) has activity 0.5, while one on h5 (square 39) has 0.05. |
| `Evaluation.OddKnightEntry` | lichess-bot-master/strategies.py:74 | A lone White knight on b3 (square 17) has activity 0.5, while one on g3 (square 22) has 0.05. |
| `Evaluation.HeuristicBounded` | lichess-bot-master/strategies.py:126-127 | On any 64-square board, material plus activity lies within [-1184, 1184]. So it never reaches the ±9999 checkmate score. |
| `Evaluation.Evaluate` | lichess-bot-master/strategies.py:118-128 | A checkmate scores -9999 with White to move and 9999 with Black to move, whatever the board holds. Every other position scores strictly between -9999 and 9999. |
| `Evaluation.EvaluateSwapColors` | lichess-bot-master/strategies.py:118-128 | The evaluation of the colour-swapped position is the negation of the evaluation. |
| `GameBoard.Board.Push` | lichess-bot-master/strategies.py:47-48 | Pushing the k-th legal move adds it to the move stack, and the board then shows that move's resulting position. |
| `GameBoard.Board.Pop` | lichess-bot-master/strategies.py:50 | Popping removes the last move from the stack, which brings back the position before it. |
| `Search.AlphaBeta` | lichess-bot-master/strategies.py:41-68 | Returns `AlphaBetaValue` of the position the board shows. That value is the evaluation at depth 0 or game over, and otherwise the max or min fold with pruning. The board's move stack is the same on return as on entry. |
| `Search.DrawIsScoredLikeQuietLeaf` | lichess-bot-master/strategies.py:42-43 | A game-over position that is not checkmate scores material plus activity at every depth and window, which lies within [-1184, 1184]. |
| `Search.MaximizingLoop` | lichess-bot-master/strategies.py:45-56 | The maximizing loop pushes, searches and pops each move. It folds `maxEval`/`alpha` from -9999 and breaks once `beta <= alpha`. It returns `MaxLoop` and leaves the board as it was. |
| `Search.MinimizingLoop` | lichess-bot-master/strategies.py:57-68 | The minimizing loop, the mirror of the maximizing loop, with `minEval`/`beta` from 9999. It returns `MinLoop` and leaves the board as it was. |
| `Search.AlphaBetaFailSoft` | lichess-bot-master/strategies.py:41-68 | For any window -9999 <= alpha < beta <= 9999, the result equals unpruned minimax when minimax is strictly inside the window. When minimax is at or below alpha, the result lies between minimax and alpha. When minimax is at or above beta, it lies between beta and minimax. |
| `Search.MaxLoopFailSoft` | lichess-bot-master/strategies.py:45-56 | The same fail-soft relation for the maximizing loop against the unpruned running maximum, when the running `maxEval` starts at or below alpha. |
| `Search.MinLoopFailSoft` | lichess-bot-master/strategies.py:57-68 | The same fail-soft relation for the minimizing loop against the unpruned running minimum, when the running `minEval` starts at or above beta. |
| `Search.MinimaxBounded` | lichess-bot-master/strategies.py:42-68 | Unpruned minimax values always lie in [-9999, 9999]. |
| `Search.AlphaBetaAgreesWithMinimax` | lichess-bot-master/strategies.py:40-68 | With the window (-9999, 9999), alpha-beta returns exactly the unpruned minimax value, for every game tree and depth. |
| `Search.FirstBest` | lichess-bot-master/strategies.py:134-148 | The root's choice is taken in enumeration order. The kept move strictly beats the initial ∓9999 and every earlier score, and no later score strictly beats it. No move is kept exactly when no score strictly beats the initial value, and then the value stays ∓9999. |
| `Search.ScoreMove` | lichess-bot-master/strategies.py:136-139 | Pushing the i-th root move, searching the reply at depth 2 with the minimizing flag and window (-9999, 9999), and popping gives that move's root score and leaves the move stack unchanged. |
| `Search.Search` | lichess-bot-master/strategies.py:131-149 | Searching every root move at depth 2 with a fresh window gives the move and value of `FirstBest` for the side to move. The board is restored afterwards. |
| `Search.RootScoreIsMinimax` | lichess-bot-master/strategies.py:138 | Each root score equals the unpruned minimax value of the reply position at depth 2, with the minimizing flag, and lies in [-9999, 9999]. |
| `Search.RootMinimizesWhiteReply` | lichess-bot-master/strategies.py:138 | For a reply position where White to move can mate in one or reach a bare-board draw, the root score is 0. With the maximizing flag the same search gives 9999. |
| `Search.NoMoveIffAllScoresAtSentinel` | lichess-bot-master/strategies.py:134-148 | The root returns no move exactly in two cases: there are no legal moves, or every move scores exactly -9999 (White to move) or 9999 (Black to move). |

## Left out

- python-chess is not modelled: move generation, `push`/`pop` internals, `is_game_over`, `is_checkmate`, `attackers`, `turn` and `piece_at`. Their answers are inputs, held in `Position` and `GameTree`. No consistency is assumed between them, for example that checkmate implies game over.
- `GameBoard.Board.Push` takes the index of a move in the legal-move list, not the move object. The move objects are kept in the tree's edges and returned by the root search.
- Floating-point rounding is left out. Scores are exact reals, and no claim is made of bit-exact agreement with IEEE doubles.
- The game tree is a finite datatype. A depth-limited search only ever looks at a finite part of the real game anyway.
- The `MinimalEngine` base class, the `PlayResult` built at line 152, the `print` at line 150, the imports and the ignored `*args` of `search` are host-adapter plumbing. `Search.Search` returns the kept move and its value (the value is only printed in the source) instead of a `PlayResult`.
