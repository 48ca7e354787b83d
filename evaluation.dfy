/** The static evaluator: material count, piece activity (piece-square tables
    plus the attacker-count penalty) and the checkmate short-circuit.
    Scores are positive when they favour White. */
module Evaluation {
  import opened Wrappers
  import opened Pieces
  import opened Tables

  /** The checkmate score; every other evaluation lies strictly inside it. */
  const Sentinel: real := 9999.0

  /** What `board.piece_at(i)` answers for the 64 squares. */
  type Squares = s: seq<Option<Piece>> | |s| == 64 witness seq(64, _ => None)

  /** What `len(board.attackers(colour, i))` answers for the 64 squares. */
  type AttackCounts = s: seq<nat> | |s| == 64 witness seq(64, _ => 0)

  /** The rules engine's answers about one position, taken as inputs. */
  datatype Position = Position(
    squares: Squares,
    whiteAttackers: AttackCounts,
    blackAttackers: AttackCounts,
    turn: Color,
    checkmate: bool,
    gameOver: bool)

  function Attackers(pos: Position, c: Color, i: nat): nat
    requires i < 64
  {
    if c == White then pos.whiteAttackers[i] else pos.blackAttackers[i]
  }

  // ---------------------------------------------------------------------
  // Material

  /** What one square adds to the material count: nothing when it is empty
      or holds a king, otherwise the piece's value, signed by its colour. */
  function SquareMaterial(x: Option<Piece>): real
  {
    match x
    case None => 0.0
    case Some(p) => if p.kind == King then 0.0 else Signed(p.color, Value(p.kind))
  }

  /** The material count of a run of squares. */
  function Material(s: seq<Option<Piece>>): real
  {
    if s == [] then 0.0 else Material(s[..|s| - 1]) + SquareMaterial(s[|s| - 1])
  }

  /** `countMaterial`: one pass over the 64 squares accumulating `total`. */
  method CountMaterial(squares: Squares) returns (total: real)
    ensures total == Material(squares)
  {
    total := 0.0;
    for i := 0 to 64
      invariant total == Material(squares[..i])
    {
      assert squares[..i + 1][..i] == squares[..i];
      match squares[i]
      case None =>
      case Some(p) =>
        if p.kind != King {
          var toAdd := 0.0;
          match p.kind {
            case Pawn => toAdd := toAdd + 1.0;
            case Knight => toAdd := toAdd + 3.0;
            case Bishop => toAdd := toAdd + 3.2;
            case Rook => toAdd := toAdd + 5.0;
            case Queen => toAdd := toAdd + 9.0;
          }
          if p.color == Black {
            total := total - toAdd;
          } else {
            total := total + toAdd;
          }
        }
    }
    assert squares[..64] == squares;
  }

  /** The number of squares holding exactly piece `p`. */
  function Count(s: seq<Option<Piece>>, p: Piece): nat
  {
    multiset(s)[Some(p)]
  }

  /** The summed value of one side's non-king pieces. */
  function ArmyValue(s: seq<Option<Piece>>, c: Color): real
  {
    1.0 * (Count(s, Piece(Pawn, c)) as real)
    + 3.0 * (Count(s, Piece(Knight, c)) as real)
    + 3.2 * (Count(s, Piece(Bishop, c)) as real)
    + 5.0 * (Count(s, Piece(Rook, c)) as real)
    + 9.0 * (Count(s, Piece(Queen, c)) as real)
  }

  /** Material is White's army value minus Black's: empty squares and kings
      add nothing, and where a piece stands does not matter. */
  lemma {:induction false} MaterialIsArmyDifference(s: seq<Option<Piece>>)
    ensures Material(s) == ArmyValue(s, White) - ArmyValue(s, Black)
  {
    if s != [] {
      var init, x := s[..|s| - 1], s[|s| - 1];
      assert s == init + [x];
      MaterialIsArmyDifference(init);
      ArmyValueSnoc(init, x, White);
      ArmyValueSnoc(init, x, Black);
    }
  }

  /** What one more square adds to a side's army value. */
  lemma ArmyValueSnoc(s: seq<Option<Piece>>, x: Option<Piece>, c: Color)
    ensures ArmyValue(s + [x], c)
            == ArmyValue(s, c) + if x.Some? && x.value.color == c then Value(x.value.kind) else 0.0
  {
    assert multiset(s + [x]) == multiset(s) + multiset{x};
  }

  /** Both sides field the same number of pieces of every non-king kind. */
  ghost predicate SameArmies(s: seq<Option<Piece>>)
  {
    forall k: Kind :: k != King ==> Count(s, Piece(k, White)) == Count(s, Piece(k, Black))
  }

  /** Equal armies balance exactly. */
  lemma BalancedArmiesScoreZero(s: seq<Option<Piece>>)
    requires SameArmies(s)
    ensures Material(s) == 0.0
  {
    MaterialIsArmyDifference(s);
    assert Count(s, Piece(Pawn, White)) == Count(s, Piece(Pawn, Black));
    assert Count(s, Piece(Knight, White)) == Count(s, Piece(Knight, Black));
    assert Count(s, Piece(Bishop, White)) == Count(s, Piece(Bishop, Black));
    assert Count(s, Piece(Rook, White)) == Count(s, Piece(Rook, Black));
    assert Count(s, Piece(Queen, White)) == Count(s, Piece(Queen, Black));
  }

  // ---------------------------------------------------------------------
  // Piece activity

  /** What the piece on square `i` adds to the activity score. A non-king
      piece earns its table entry at the raw index `i` (no mirroring for
      Black) and loses its full value when its own side's attackers on `i`
      outnumber the opponent's: the source calls the piece "defended" when
      `own <= opp` and penalises the opposite case. Black's sum is negated. */
  function SquareActivity(pos: Position, i: nat): real
    requires i < 64
  {
    match pos.squares[i]
    case None => 0.0
    case Some(p) =>
      if p.kind == King then 0.0
      else
        var defended := Attackers(pos, p.color, i) <= Attackers(pos, Opponent(p.color), i);
        Signed(p.color, Table(p.kind)[i] - (if defended then 0.0 else Value(p.kind)))
  }

  /** The activity of squares `0 .. n-1`. */
  function ActivityUpTo(pos: Position, n: nat): real
    requires n <= 64
  {
    if n == 0 then 0.0 else ActivityUpTo(pos, n - 1) + SquareActivity(pos, n - 1)
  }

  /** The activity of the whole board (its 64 squares). */
  function Activity(pos: Position): real
  {
    ActivityUpTo(pos, |pos.squares|)
  }

  /** `getPieceActivity`: one pass over the 64 squares accumulating `total`. */
  method GetPieceActivity(pos: Position) returns (total: real)
    ensures total == Activity(pos)
  {
    total := 0.0;
    for i := 0 to 64
      invariant total == ActivityUpTo(pos, i)
    {
      match pos.squares[i]
      case None =>
      case Some(p) =>
        if p.kind != King {
          var toAdd := 0.0;
          var pieceColor := p.color;
          var oppColor := White;
          if pieceColor == White {
            oppColor := Black;
          }
          var defended := Attackers(pos, pieceColor, i) <= Attackers(pos, oppColor, i);
          match p.kind {
            case Pawn =>
              toAdd := toAdd + PawnTable[i];
              if !defended { toAdd := toAdd - 1.0; }
            case Knight =>
              toAdd := toAdd + KnightTable[i];
              if !defended { toAdd := toAdd - 3.0; }
            case Bishop =>
              toAdd := toAdd + BishopTable[i];
              if !defended { toAdd := toAdd - 3.2; }
            case Rook =>
              toAdd := toAdd + RookTable[i];
              if !defended { toAdd := toAdd - 5.0; }
            case Queen =>
              toAdd := toAdd + QueenTable[i];
              if !defended { toAdd := toAdd - 9.0; }
          }
          assert toAdd == Table(p.kind)[i] - (if defended then 0.0 else Value(p.kind));
          if p.color == Black {
            total := total - toAdd;
          } else {
            total := total + toAdd;
          }
        }
    }
  }

  /** `p` and `q` differ at most on square `j` (its piece and its attacker
      counts); turn and flags are free. */
  ghost predicate AgreeExcept(p: Position, q: Position, j: nat)
  {
    forall i :: 0 <= i < 64 && i != j ==>
      p.squares[i] == q.squares[i]
      && p.whiteAttackers[i] == q.whiteAttackers[i]
      && p.blackAttackers[i] == q.blackAttackers[i]
  }

  /** A square's contribution depends only on its piece and its attacker counts. */
  lemma SameSquareSameActivity(p: Position, q: Position, i: nat)
    requires i < 64 && p.squares[i] == q.squares[i]
    requires p.whiteAttackers[i] == q.whiteAttackers[i] && p.blackAttackers[i] == q.blackAttackers[i]
    ensures SquareActivity(p, i) == SquareActivity(q, i)
  {
  }

  /** Activity is a sum of independent squares: changing one square changes
      the total by exactly that square's change. */
  lemma {:induction false} ActivityLocal(p: Position, q: Position, j: nat, n: nat)
    requires j < 64 && n <= 64 && AgreeExcept(p, q, j)
    ensures ActivityUpTo(q, n) - ActivityUpTo(p, n)
            == if j < n then SquareActivity(q, j) - SquareActivity(p, j) else 0.0
  {
    if n > 0 {
      ActivityLocal(p, q, j, n - 1);
      if n - 1 != j {
        SameSquareSameActivity(p, q, n - 1);
      }
    }
  }

  // ---------------------------------------------------------------------
  // Evaluation

  /** Every square moves the score by at most 9 (material) plus 9.5 (table
      entry and penalty). */
  lemma SquareBounded(pos: Position, i: nat)
    requires i < 64
    ensures -9.0 <= SquareMaterial(pos.squares[i]) <= 9.0
    ensures -9.5 <= SquareActivity(pos, i) <= 9.5
  {
    match pos.squares[i]
    case None =>
    case Some(p) =>
      if p.kind != King {
        TableEntryBounded(p.kind, i);
      }
  }

  lemma {:induction false} MaterialBounded(pos: Position, n: nat)
    requires n <= 64
    ensures -9.0 * (n as real) <= Material(pos.squares[..n]) <= 9.0 * (n as real)
  {
    if n > 0 {
      assert pos.squares[..n][..n - 1] == pos.squares[..n - 1];
      MaterialBounded(pos, n - 1);
      SquareBounded(pos, n - 1);
    }
  }

  lemma {:induction false} ActivityBounded(pos: Position, n: nat)
    requires n <= 64
    ensures -9.5 * (n as real) <= ActivityUpTo(pos, n) <= 9.5 * (n as real)
  {
    if n > 0 {
      ActivityBounded(pos, n - 1);
      SquareBounded(pos, n - 1);
    }
  }

  /** Sentinel dominance: material plus activity of any 64-square board lies
      within 64 * 18.5 = 1184, far inside the checkmate score. */
  lemma HeuristicBounded(pos: Position)
    ensures -1184.0 <= Material(pos.squares) + Activity(pos) <= 1184.0
  {
    MaterialBounded(pos, 64);
    ActivityBounded(pos, 64);
    assert pos.squares[..64] == pos.squares;
  }

  /** `evaluate`: a checkmate scores -9999 when White is to move and 9999 when
      Black is, whatever stands on the board; any other position scores its
      material plus its activity, which never reaches either sentinel. */
  function Evaluate(pos: Position): (r: real)
    ensures pos.checkmate ==> r == (if pos.turn == White then -Sentinel else Sentinel)
    ensures !pos.checkmate ==> -Sentinel < r < Sentinel
  {
    if pos.checkmate then
      if pos.turn == White then -Sentinel else Sentinel
    else
      HeuristicBounded(pos);
      Material(pos.squares) + Activity(pos)
  }

  // ---------------------------------------------------------------------
  // Colour symmetry

  function RecolorSquare(x: Option<Piece>): Option<Piece>
  {
    match x
    case None => None
    case Some(p) => Some(Recolor(p))
  }

  /** Every piece changes colour; squares stay where they are. */
  function RecolorAll(s: seq<Option<Piece>>): (r: seq<Option<Piece>>)
    ensures |r| == |s|
    ensures forall i :: 0 <= i < |s| ==> r[i] == RecolorSquare(s[i])
  {
    seq(|s|, i requires 0 <= i < |s| => RecolorSquare(s[i]))
  }

  /** The same position with the colours exchanged: every piece recoloured,
      the attacker counts of the two sides exchanged, the other side to move. */
  function SwapColors(pos: Position): Position
  {
    Position(RecolorAll(pos.squares), pos.blackAttackers, pos.whiteAttackers,
             Opponent(pos.turn), pos.checkmate, pos.gameOver)
  }

  /** Recolouring every piece negates the material count. */
  lemma {:induction false} MaterialSwapColors(s: seq<Option<Piece>>)
    ensures Material(RecolorAll(s)) == -Material(s)
  {
    if s != [] {
      assert RecolorAll(s)[..|s| - 1] == RecolorAll(s[..|s| - 1]);
      MaterialSwapColors(s[..|s| - 1]);
    }
  }

  /** Exchanging colours negates the activity score: the tables are read at
      the same raw index for both colours, so the terms cancel exactly. */
  lemma {:induction false} ActivitySwapColors(pos: Position, n: nat)
    requires n <= 64
    ensures ActivityUpTo(SwapColors(pos), n) == -ActivityUpTo(pos, n)
  {
    if n > 0 {
      ActivitySwapColors(pos, n - 1);
      var i := n - 1;
      match pos.squares[i]
      case None =>
      case Some(p) =>
        assert SwapColors(pos).squares[i] == Some(Recolor(p));
        assert Attackers(SwapColors(pos), Opponent(p.color), i) == Attackers(pos, p.color, i);
        assert Attackers(SwapColors(pos), p.color, i) == Attackers(pos, Opponent(p.color), i);
    }
  }

  /** The evaluator is colour-antisymmetric. */
  lemma EvaluateSwapColors(pos: Position)
    ensures Evaluate(SwapColors(pos)) == -Evaluate(pos)
  {
    MaterialSwapColors(pos.squares);
    ActivitySwapColors(pos, 64);
  }

  // ---------------------------------------------------------------------
  // Concrete positions that show the source's quirks

  const NoAttackers: AttackCounts := seq(64, _ => 0)

  /** A quiet position holding only `piece` on square `j`, with the given
      attacker counts on `j` and none elsewhere. */
  function Lone(piece: Piece, j: nat, white: nat, black: nat): (pos: Position)
    requires j < 64
    ensures pos.squares[j] == Some(piece)
    ensures Attackers(pos, White, j) == white && Attackers(pos, Black, j) == black
  {
    Position(seq(64, i => if i == j then Some(piece) else None),
             NoAttackers[j := white], NoAttackers[j := black], White, false, false)
  }

  lemma {:induction false} ActivityOfLone(piece: Piece, j: nat, white: nat, black: nat)
    requires j < 64
    ensures Activity(Lone(piece, j, white, black)) == SquareActivity(Lone(piece, j, white, black), j)
  {
    var q := Lone(piece, j, white, black);
    var p := q.(squares := q.squares[j := None]);
    assert AgreeExcept(p, q, j);
    ActivityLocal(p, q, j, 64);
    ActivityOfEmpty(p, 64);
  }

  lemma {:induction false} MaterialOfEmpty(s: seq<Option<Piece>>)
    requires forall i :: 0 <= i < |s| ==> s[i] == None
    ensures Material(s) == 0.0
  {
    if s != [] {
      MaterialOfEmpty(s[..|s| - 1]);
    }
  }

  lemma {:induction false} ActivityOfEmpty(pos: Position, n: nat)
    requires n <= 64
    requires forall i :: 0 <= i < 64 ==> pos.squares[i] == None
    ensures ActivityUpTo(pos, n) == 0.0
  {
    if n > 0 {
      ActivityOfEmpty(pos, n - 1);
    }
  }

  /** The inverted defence test: a White queen on d4 (square 27) that only
      its own side attacks loses its full value of 9, while the same queen
      attacked by one Black piece and defended by nobody keeps its bonus. */
  lemma DefendedQueenIsPenalised()
    ensures var q := Piece(Queen, White);
            Activity(Lone(q, 27, 1, 0)) == Activity(Lone(q, 27, 0, 1)) - 9.0
  {
    var q := Piece(Queen, White);
    ActivityOfLone(q, 27, 1, 0);
    ActivityOfLone(q, 27, 0, 1);
  }

  /** No mirroring: a White pawn on a2 (square 8) earns 0.05, but a Black pawn
      on a7 (square 48, the same file on the mirrored rank) reads White's
      seventh-rank entry and costs Black 0.5, not 0.05. */
  lemma BlackPawnReadsRawSquare()
    ensures Activity(Lone(Piece(Pawn, White), 8, 0, 0)) == 0.05
    ensures Activity(Lone(Piece(Pawn, Black), 48, 0, 0)) == -0.5
  {
    ActivityOfLone(Piece(Pawn, White), 8, 0, 0);
    ActivityOfLone(Piece(Pawn, Black), 48, 0, 0);
  }

  /** The odd pawn entry: a lone White pawn on a5 (square 32) earns 0.5,
      where its mirror image on h5 (square 39) earns 0.05. */
  lemma OddPawnEntry()
    ensures Activity(Lone(Piece(Pawn, White), 32, 0, 0)) == 0.5
    ensures Activity(Lone(Piece(Pawn, White), 39, 0, 0)) == 0.05
  {
    ActivityOfLone(Piece(Pawn, White), 32, 0, 0);
    ActivityOfLone(Piece(Pawn, White), 39, 0, 0);
  }

  /** The odd knight entry: a lone White knight on b3 (square 17) earns 0.5,
      where its mirror image on g3 (square 22) earns 0.05. */
  lemma OddKnightEntry()
    ensures Activity(Lone(Piece(Knight, White), 17, 0, 0)) == 0.5
    ensures Activity(Lone(Piece(Knight, White), 22, 0, 0)) == 0.05
  {
    ActivityOfLone(Piece(Knight, White), 17, 0, 0);
    ActivityOfLone(Piece(Knight, White), 22, 0, 0);
  }
}
