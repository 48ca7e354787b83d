/** Fixed-depth fail-soft alpha-beta over the shared board, the unpruned
    minimax it agrees with, and the root move selection of the engine. */
module Search {
  import opened Wrappers
  import opened Pieces
  import opened Evaluation
  import opened GameBoard

  /** Python's `max` and `min` on two numbers. */
  function Max(a: real, b: real): real { if b > a then b else a }
  function Min(a: real, b: real): real { if b < a then b else a }

  // ---------------------------------------------------------------------
  // The value alpha-beta computes

  /** The value `alphabeta(board, depth, alpha, beta, maximizing)` returns when
      the board shows `t`: the leaf evaluation at depth 0 or game over,
      otherwise a left-to-right fold over the legal moves. */
  function AlphaBetaValue(t: GameTree, depth: nat, alpha: real, beta: real, maximizing: bool): real
    decreases depth, 1, 0
  {
    if depth == 0 || t.pos.gameOver then Evaluate(t.pos)
    else if maximizing then MaxLoop(t.edges, depth - 1, alpha, beta, -Sentinel)
    else MinLoop(t.edges, depth - 1, alpha, beta, Sentinel)
  }

  /** The maximizing loop from the current move on: `maxEval` and `alpha`
      absorb each reply's value, and the remaining moves are skipped as soon
      as `beta <= alpha`. */
  function MaxLoop(es: seq<Edge>, depth: nat, alpha: real, beta: real, maxEval: real): real
    decreases depth + 1, 0, |es|
  {
    if es == [] then maxEval
    else
      var evaluation := AlphaBetaValue(es[0].child, depth, alpha, beta, false);
      var maxEval' := Max(maxEval, evaluation);
      var alpha' := Max(alpha, evaluation);
      if beta <= alpha' then maxEval' else MaxLoop(es[1..], depth, alpha', beta, maxEval')
  }

  /** The minimizing loop, symmetric to `MaxLoop` with `minEval` and `beta`. */
  function MinLoop(es: seq<Edge>, depth: nat, alpha: real, beta: real, minEval: real): real
    decreases depth + 1, 0, |es|
  {
    if es == [] then minEval
    else
      var evaluation := AlphaBetaValue(es[0].child, depth, alpha, beta, true);
      var minEval' := Min(minEval, evaluation);
      var beta' := Min(beta, evaluation);
      if beta' <= alpha then minEval' else MinLoop(es[1..], depth, alpha, beta', minEval')
  }

  /** `alphabeta`: recursive search over the one shared board. Every move
      pushed is popped before the next move is tried or the loop breaks, so
      the board is returned exactly as it was received. */
  method AlphaBeta(board: Board, depth: nat, alpha: real, beta: real, maximizing: bool)
    returns (value: real)
    requires board.Valid()
    modifies board
    decreases depth, 1
    ensures board.Valid() && board.stack == old(board.stack)
    ensures value == AlphaBetaValue(board.Current(), depth, alpha, beta, maximizing)
  {
    var node := board.Current();
    if depth == 0 || node.pos.gameOver {
      value := Evaluate(node.pos);
    } else if maximizing {
      value := MaximizingLoop(board, depth, alpha, beta);
    } else {
      value := MinimizingLoop(board, depth, alpha, beta);
    }
  }

  /** The `maximizingPlayer` branch of `alphabeta` (depth > 0, game not over). */
  method MaximizingLoop(board: Board, depth: nat, alpha: real, beta: real) returns (maxEval: real)
    requires board.Valid() && depth > 0
    modifies board
    decreases depth, 0
    ensures board.Valid() && board.stack == old(board.stack)
    ensures maxEval == MaxLoop(board.Current().edges, depth - 1, alpha, beta, -Sentinel)
  {
    var moves := board.Current().edges;
    maxEval := -Sentinel;
    var a := alpha;
    var i := 0;
    while i < |moves|
      invariant 0 <= i <= |moves|
      invariant board.Valid() && board.stack == old(board.stack) && board.Current().edges == moves
      invariant MaxLoop(moves[i..], depth - 1, a, beta, maxEval)
                == MaxLoop(moves, depth - 1, alpha, beta, -Sentinel)
    {
      board.Push(i);
      var evaluation := AlphaBeta(board, depth - 1, a, beta, false);
      board.Pop();
      assert moves[i..][0] == moves[i] && moves[i..][1..] == moves[i + 1..];
      maxEval := Max(maxEval, evaluation);
      a := Max(a, evaluation);
      if beta <= a {
        break;
      }
      i := i + 1;
    }
  }

  /** The minimizing branch of `alphabeta` (depth > 0, game not over). */
  method MinimizingLoop(board: Board, depth: nat, alpha: real, beta: real) returns (minEval: real)
    requires board.Valid() && depth > 0
    modifies board
    decreases depth, 0
    ensures board.Valid() && board.stack == old(board.stack)
    ensures minEval == MinLoop(board.Current().edges, depth - 1, alpha, beta, Sentinel)
  {
    var moves := board.Current().edges;
    minEval := Sentinel;
    var b := beta;
    var i := 0;
    while i < |moves|
      invariant 0 <= i <= |moves|
      invariant board.Valid() && board.stack == old(board.stack) && board.Current().edges == moves
      invariant MinLoop(moves[i..], depth - 1, alpha, b, minEval)
                == MinLoop(moves, depth - 1, alpha, beta, Sentinel)
    {
      board.Push(i);
      var evaluation := AlphaBeta(board, depth - 1, alpha, b, true);
      board.Pop();
      assert moves[i..][0] == moves[i] && moves[i..][1..] == moves[i + 1..];
      minEval := Min(minEval, evaluation);
      b := Min(b, evaluation);
      if b <= alpha {
        break;
      }
      i := i + 1;
    }
  }

  // ---------------------------------------------------------------------
  // Unpruned minimax

  /** The same search with no pruning: every move is searched and the fold
      starts from the same -9999 / 9999. */
  function Minimax(t: GameTree, depth: nat, maximizing: bool): real
    decreases depth, 1, 0
  {
    if depth == 0 || t.pos.gameOver then Evaluate(t.pos)
    else if maximizing then MaxOf(t.edges, depth - 1, -Sentinel)
    else MinOf(t.edges, depth - 1, Sentinel)
  }

  function MaxOf(es: seq<Edge>, depth: nat, acc: real): real
    decreases depth + 1, 0, |es|
  {
    if es == [] then acc else MaxOf(es[1..], depth, Max(acc, Minimax(es[0].child, depth, false)))
  }

  function MinOf(es: seq<Edge>, depth: nat, acc: real): real
    decreases depth + 1, 0, |es|
  {
    if es == [] then acc else MinOf(es[1..], depth, Min(acc, Minimax(es[0].child, depth, true)))
  }

  /** The running maximum can absorb an extra starting bound at any time. */
  lemma {:induction false} MaxOfShift(es: seq<Edge>, depth: nat, a: real, x: real)
    ensures MaxOf(es, depth, Max(a, x)) == Max(a, MaxOf(es, depth, x))
    decreases |es|
  {
    if es != [] {
      var m := Minimax(es[0].child, depth, false);
      assert Max(Max(a, x), m) == Max(a, Max(x, m));
      MaxOfShift(es[1..], depth, a, Max(x, m));
    }
  }

  lemma {:induction false} MinOfShift(es: seq<Edge>, depth: nat, a: real, x: real)
    ensures MinOf(es, depth, Min(a, x)) == Min(a, MinOf(es, depth, x))
    decreases |es|
  {
    if es != [] {
      var m := Minimax(es[0].child, depth, true);
      assert Min(Min(a, x), m) == Min(a, Min(x, m));
      MinOfShift(es[1..], depth, a, Min(x, m));
    }
  }

  // ---------------------------------------------------------------------
  // Alpha-beta agrees with minimax

  /** The fail-soft guarantee of a search with window (`alpha`, `beta`) whose
      result is `v` where minimax gives `m`: exact inside the window, and on
      the correct side of the window, between it and `m`, outside it. */
  ghost predicate FailSoft(v: real, m: real, alpha: real, beta: real)
  {
    && (m <= alpha ==> m <= v <= alpha)
    && (alpha < m < beta ==> v == m)
    && (beta <= m ==> beta <= v <= m)
  }

  lemma {:induction false} AlphaBetaFailSoft(t: GameTree, depth: nat, alpha: real, beta: real, maximizing: bool)
    requires -Sentinel <= alpha < beta <= Sentinel
    ensures FailSoft(AlphaBetaValue(t, depth, alpha, beta, maximizing), Minimax(t, depth, maximizing), alpha, beta)
    decreases depth, 1, 0
  {
    if depth == 0 || t.pos.gameOver {
    } else if maximizing {
      MaxLoopFailSoft(t.edges, depth - 1, alpha, beta, -Sentinel);
    } else {
      MinLoopFailSoft(t.edges, depth - 1, alpha, beta, Sentinel);
    }
  }

  lemma {:induction false} MaxLoopFailSoft(es: seq<Edge>, depth: nat, alpha: real, beta: real, maxEval: real)
    requires -Sentinel <= alpha < beta <= Sentinel && maxEval <= alpha
    ensures FailSoft(MaxLoop(es, depth, alpha, beta, maxEval), MaxOf(es, depth, maxEval), alpha, beta)
    decreases depth + 1, 0, |es|
  {
    if es != [] {
      var c, rest := es[0].child, es[1..];
      var e := AlphaBetaValue(c, depth, alpha, beta, false);
      var m0 := Minimax(c, depth, false);
      AlphaBetaFailSoft(c, depth, alpha, beta, false);
      var start := Max(maxEval, m0);
      assert MaxOf(es, depth, maxEval) == MaxOf(rest, depth, start);
      MaxOfShift(rest, depth, start, start);
      var alpha' := Max(alpha, e);
      if alpha' < beta {
        MaxLoopFailSoft(rest, depth, alpha', beta, Max(maxEval, e));
        if e <= alpha {
          assert Max(maxEval, e) == Max(e, start);
          MaxOfShift(rest, depth, e, start);
        }
      }
    }
  }

  lemma {:induction false} MinLoopFailSoft(es: seq<Edge>, depth: nat, alpha: real, beta: real, minEval: real)
    requires -Sentinel <= alpha < beta <= Sentinel && beta <= minEval
    ensures FailSoft(MinLoop(es, depth, alpha, beta, minEval), MinOf(es, depth, minEval), alpha, beta)
    decreases depth + 1, 0, |es|
  {
    if es != [] {
      var c, rest := es[0].child, es[1..];
      var e := AlphaBetaValue(c, depth, alpha, beta, true);
      var m0 := Minimax(c, depth, true);
      AlphaBetaFailSoft(c, depth, alpha, beta, true);
      var start := Min(minEval, m0);
      assert MinOf(es, depth, minEval) == MinOf(rest, depth, start);
      MinOfShift(rest, depth, start, start);
      var beta' := Min(beta, e);
      if alpha < beta' {
        MinLoopFailSoft(rest, depth, alpha, beta', Min(minEval, e));
        if beta <= e {
          assert Min(minEval, e) == Min(e, start);
          MinOfShift(rest, depth, e, start);
        }
      }
    }
  }

  /** Minimax values never leave the sentinel range. */
  lemma {:induction false} MinimaxBounded(t: GameTree, depth: nat, maximizing: bool)
    ensures -Sentinel <= Minimax(t, depth, maximizing) <= Sentinel
    decreases depth, 1, 0
  {
    if depth == 0 || t.pos.gameOver {
    } else if maximizing {
      MaxOfBounded(t.edges, depth - 1, -Sentinel);
    } else {
      MinOfBounded(t.edges, depth - 1, Sentinel);
    }
  }

  lemma {:induction false} MaxOfBounded(es: seq<Edge>, depth: nat, acc: real)
    requires -Sentinel <= acc <= Sentinel
    ensures -Sentinel <= MaxOf(es, depth, acc) <= Sentinel
    decreases depth + 1, 0, |es|
  {
    if es != [] {
      MinimaxBounded(es[0].child, depth, false);
      MaxOfBounded(es[1..], depth, Max(acc, Minimax(es[0].child, depth, false)));
    }
  }

  lemma {:induction false} MinOfBounded(es: seq<Edge>, depth: nat, acc: real)
    requires -Sentinel <= acc <= Sentinel
    ensures -Sentinel <= MinOf(es, depth, acc) <= Sentinel
    decreases depth + 1, 0, |es|
  {
    if es != [] {
      MinimaxBounded(es[0].child, depth, true);
      MinOfBounded(es[1..], depth, Min(acc, Minimax(es[0].child, depth, true)));
    }
  }

  /** With the full window (-9999, 9999), pruning never changes the result. */
  lemma AlphaBetaAgreesWithMinimax(t: GameTree, depth: nat, maximizing: bool)
    ensures AlphaBetaValue(t, depth, -Sentinel, Sentinel, maximizing) == Minimax(t, depth, maximizing)
  {
    AlphaBetaFailSoft(t, depth, -Sentinel, Sentinel, maximizing);
    MinimaxBounded(t, depth, maximizing);
  }

  // ---------------------------------------------------------------------
  // Root move selection

  /** The fixed search depth of the engine. */
  const SearchDepth: nat := 3

  /** The score the root gives a move leading to `child`: always searched
      with the minimizing flag, whichever side is to move at the root. */
  function RootScore(child: GameTree): real
  {
    AlphaBetaValue(child, SearchDepth - 1, -Sentinel, Sentinel, false)
  }

  /** The scores of the root's moves, in enumeration order. */
  function RootScores(t: GameTree): (scores: seq<real>)
    ensures |scores| == |t.edges|
  {
    MoveScores(t.edges)
  }

  function MoveScores(es: seq<Edge>): (scores: seq<real>)
    ensures |scores| == |es|
  {
    if es == [] then [] else MoveScores(es[..|es| - 1]) + [RootScore(es[|es| - 1].child)]
  }

  /** Score `i` of the root is the score of its `i`-th move. */
  lemma {:induction false} RootScoresAt(es: seq<Edge>, i: nat)
    requires i < |es|
    ensures MoveScores(es)[i] == RootScore(es[i].child)
  {
    if i < |es| - 1 {
      RootScoresAt(es[..|es| - 1], i);
    }
  }

  /** `evaluation > bestValue` for White, `evaluation < bestValue` for Black. */
  predicate Improves(whiteToMove: bool, x: real, best: real)
  {
    if whiteToMove then x > best else x < best
  }

  function InitialBest(whiteToMove: bool): real
  {
    if whiteToMove then -Sentinel else Sentinel
  }

  /** The index of the kept move (if any) and the best value. */
  datatype Choice = Choice(index: Option<nat>, value: real)

  /** The root's choice among `scores`, taken in enumeration order: the
      first move whose score strictly beats everything before it (and the
      initial value) and that no later move strictly beats; no move at all
      when none beats the initial value. */
  function FirstBest(scores: seq<real>, whiteToMove: bool): (c: Choice)
    ensures !Improves(whiteToMove, InitialBest(whiteToMove), c.value)
    ensures forall j :: 0 <= j < |scores| ==> !Improves(whiteToMove, scores[j], c.value)
    ensures c.index.None? <==>
            forall j :: 0 <= j < |scores| ==> !Improves(whiteToMove, scores[j], InitialBest(whiteToMove))
    ensures c.index.None? ==> c.value == InitialBest(whiteToMove)
    ensures c.index.Some? ==>
            && c.index.value < |scores|
            && c.value == scores[c.index.value]
            && Improves(whiteToMove, c.value, InitialBest(whiteToMove))
            && (forall j :: 0 <= j < c.index.value ==> Improves(whiteToMove, c.value, scores[j]))
  {
    if scores == [] then Choice(None, InitialBest(whiteToMove))
    else
      var prev := FirstBest(scores[..|scores| - 1], whiteToMove);
      var x := scores[|scores| - 1];
      if Improves(whiteToMove, x, prev.value) then Choice(Some(|scores| - 1), x) else prev
  }

  /** One more score either becomes the kept move or leaves the choice as it was. */
  lemma FirstBestStep(scores: seq<real>, i: nat, whiteToMove: bool)
    requires i < |scores|
    ensures var prev := FirstBest(scores[..i], whiteToMove);
            FirstBest(scores[..i + 1], whiteToMove)
            == if Improves(whiteToMove, scores[i], prev.value) then Choice(Some(i), scores[i]) else prev
  {
    assert scores[..i + 1][..i] == scores[..i];
  }

  /** The body of the root loop up to the comparison: push the `i`-th move,
      search the reply with the minimizing flag and a fresh full window, pop. */
  method ScoreMove(board: Board, i: nat, depth: nat) returns (evaluation: real)
    requires board.Valid() && i < |board.Current().edges| && depth == SearchDepth - 1
    modifies board
    ensures board.Valid() && board.stack == old(board.stack)
    ensures evaluation == RootScores(board.Current())[i]
  {
    board.Push(i);
    evaluation := AlphaBeta(board, depth, -Sentinel, Sentinel, false);
    board.Pop();
    RootScoresAt(board.Current().edges, i);
  }

  /** `YanNepochoEngine.search`: scores every legal move at depth 3 with a
      fresh full window, keeps the first strictly best one for the side to
      move, and leaves the board as it found it. */
  method Search(board: Board) returns (bestMove: Option<Move>, bestValue: real)
    requires board.Valid()
    modifies board
    ensures board.Valid() && board.stack == old(board.stack)
    ensures var t := board.Current();
            var c := FirstBest(RootScores(t), t.pos.turn == White);
            && bestValue == c.value
            && bestMove == (if c.index.Some? then Some(t.edges[c.index.value].move) else None)
  {
    var depth := SearchDepth;
    var node := board.Current();
    var whiteToMove := node.pos.turn == White;
    bestValue := if whiteToMove then -Sentinel else Sentinel;
    bestMove := None;
    ghost var bestIndex: Option<nat> := None;
    ghost var scores := RootScores(node);
    for i := 0 to |node.edges|
      invariant board.Valid() && board.stack == old(board.stack)
      invariant FirstBest(scores[..i], whiteToMove) == Choice(bestIndex, bestValue)
      invariant bestIndex.Some? ==> bestIndex.value < i && bestMove == Some(node.edges[bestIndex.value].move)
      invariant bestIndex.None? ==> bestMove == None
    {
      var evaluation := ScoreMove(board, i, depth - 1);
      FirstBestStep(scores, i, whiteToMove);
      if board.Current().pos.turn == White {
        if evaluation > bestValue {
          bestMove := Some(node.edges[i].move);
          bestValue := evaluation;
          bestIndex := Some(i);
        }
      } else {
        if evaluation < bestValue {
          bestMove := Some(node.edges[i].move);
          bestValue := evaluation;
          bestIndex := Some(i);
        }
      }
    }
    assert scores[..|node.edges|] == scores;
  }

  /** Each root score is the unpruned minimax value of the reply position at
      depth 2 with the minimizing flag, and lies in [-9999, 9999]. */
  lemma RootScoreIsMinimax(child: GameTree)
    ensures RootScore(child) == Minimax(child, SearchDepth - 1, false)
    ensures -Sentinel <= RootScore(child) <= Sentinel
  {
    AlphaBetaAgreesWithMinimax(child, SearchDepth - 1, false);
    MinimaxBounded(child, SearchDepth - 1, false);
  }

  /** A bare board, with no pieces and no attackers. */
  function Bare(turn: Color, checkmate: bool, gameOver: bool): Position
  {
    Position(seq(64, _ => None), NoAttackers, NoAttackers, turn, checkmate, gameOver)
  }

  /** A reply position with White to move and two replies: the first mates
      (Black to move, checkmate), the second reaches a bare-board draw. */
  function WhiteToReply(): GameTree
  {
    Node(Bare(White, false, false),
         [Edge(Move("h5f7"), Node(Bare(Black, true, true), [])),
          Edge(Move("a1a2"), Node(Bare(Black, false, true), []))])
  }

  /** The fixed root flag: the reply is White's, yet the root searches it
      minimizing, so White's mate in one scores 0 (the draw) where a search
      with White maximizing gives 9999. */
  lemma RootMinimizesWhiteReply()
    ensures RootScore(WhiteToReply()) == 0.0
    ensures AlphaBetaValue(WhiteToReply(), SearchDepth - 1, -Sentinel, Sentinel, true) == Sentinel
  {
    var draw := Bare(Black, false, true);
    MaterialOfEmpty(draw.squares);
    ActivityOfEmpty(draw, 64);
    var es := WhiteToReply().edges;
    assert AlphaBetaValue(es[0].child, 1, -Sentinel, Sentinel, true) == Sentinel;
    assert AlphaBetaValue(es[1].child, 1, -Sentinel, Sentinel, true) == 0.0;
    assert es[1..][0] == es[1] && es[1..][1..] == [];
    assert MinLoop(es[1..], 1, -Sentinel, Sentinel, Sentinel) == 0.0;
    assert MinLoop(es, 1, -Sentinel, Sentinel, Sentinel) == 0.0;
  }

  /** A draw (game over without checkmate) is scored like any quiet leaf, by
      material plus activity, at every depth and window. */
  lemma DrawIsScoredLikeQuietLeaf(t: GameTree, depth: nat, alpha: real, beta: real, maximizing: bool)
    requires t.pos.gameOver && !t.pos.checkmate
    ensures AlphaBetaValue(t, depth, alpha, beta, maximizing) == Material(t.pos.squares) + Activity(t.pos)
    ensures -1184.0 <= AlphaBetaValue(t, depth, alpha, beta, maximizing) <= 1184.0
  {
    HeuristicBounded(t.pos);
  }

  /** The root returns no move exactly when there is no legal move or every
      move scores exactly the initial -9999 (White) or 9999 (Black). */
  lemma NoMoveIffAllScoresAtSentinel(t: GameTree, whiteToMove: bool)
    ensures FirstBest(RootScores(t), whiteToMove).index.None? <==>
            forall i :: 0 <= i < |t.edges| ==> RootScores(t)[i] == InitialBest(whiteToMove)
  {
    forall i | 0 <= i < |t.edges|
      ensures -Sentinel <= RootScores(t)[i] <= Sentinel
    {
      RootScoresAt(t.edges, i);
      RootScoreIsMinimax(t.edges[i].child);
    }
  }
}
