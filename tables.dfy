/** The five piece-square tables of the activity term, exactly as written in
    the source, including pawn entry 32 (0.5) and knight entry 17 (0.5).
    Every colour reads them at the raw square index. */
module Tables {
  import opened Pieces

  /** `pawnEval`, one rank per row: square 0 is a1, square 63 is h8. */
  const PawnTable: seq<real> :=
    [  0.0,   0.0,   0.0,   0.0,   0.0,   0.0,   0.0,   0.0] +
    [ 0.05,  0.10,  0.10, -0.20, -0.20,  0.10,  0.10,  0.05] +
    [ 0.05, -0.05, -0.10,   0.0,   0.0, -0.10, -0.05,  0.05] +
    [  0.0,   0.0,   0.0,  0.20,  0.20,   0.0,   0.0,   0.0] +
    [  0.5,  0.05,  0.10,  0.25,  0.25,  0.10,  0.05,  0.05] +
    [ 0.10,  0.10,  0.20,  0.30,  0.30,  0.20,  0.10,  0.10] +
    [ 0.50,  0.50,  0.50,  0.50,  0.50,  0.50,  0.50,  0.50] +
    [  0.0,   0.0,   0.0,   0.0,   0.0,   0.0,   0.0,   0.0]

  /** `knightEval`, one rank per row: square 0 is a1, square 63 is h8. */
  const KnightTable: seq<real> :=
    [-0.50, -0.40, -0.30, -0.30, -0.30, -0.30, -0.40, -0.50] +
    [-0.40, -0.20,   0.0,  0.05,  0.05,   0.0, -0.20, -0.40] +
    [-0.30,   0.5,  0.10,  0.15,  0.15,  0.10,  0.05, -0.30] +
    [-0.30,   0.0,  0.15,  0.20,  0.20,  0.15,   0.0, -0.30] +
    [-0.30,  0.05,  0.15,  0.20,  0.20,  0.15,  0.05, -0.30] +
    [-0.30,   0.0,  0.10,  0.15,  0.15,  0.10,   0.0, -0.30] +
    [-0.40, -0.20,   0.0,   0.0,   0.0,   0.0, -0.20, -0.40] +
    [-0.50, -0.40, -0.30, -0.30, -0.30, -0.30, -0.40, -0.50]

  /** `bishEval`, one rank per row: square 0 is a1, square 63 is h8. */
  const BishopTable: seq<real> :=
    [-0.20, -0.10, -0.10, -0.10, -0.10, -0.10, -0.10, -0.20] +
    [-0.10,  0.05,   0.0,   0.0,   0.0,   0.0,  0.05, -0.10] +
    [-0.10,  0.10,  0.10,  0.10,  0.10,  0.10,  0.10, -0.10] +
    [-0.10,   0.0,  0.10,  0.10,  0.10,  0.10,   0.0, -0.10] +
    [-0.10,  0.05,  0.05,  0.10,  0.10,  0.05,  0.05, -0.10] +
    [-0.10,   0.0,  0.05,  0.10,  0.10,  0.05,   0.0, -0.10] +
    [-0.10,   0.0,   0.0,   0.0,   0.0,   0.0,   0.0, -0.10] +
    [-0.20, -0.10, -0.10, -0.10, -0.10, -0.10, -0.10, -0.20]

  /** `rookEval`, one rank per row: square 0 is a1, square 63 is h8. */
  const RookTable: seq<real> :=
    [  0.0,   0.0,   0.0,  0.05,  0.05,   0.0,   0.0,   0.0] +
    [-0.05,   0.0,   0.0,   0.0,   0.0,   0.0,   0.0, -0.05] +
    [-0.05,   0.0,   0.0,   0.0,   0.0,   0.0,   0.0, -0.05] +
    [-0.05,   0.0,   0.0,   0.0,   0.0,   0.0,   0.0, -0.05] +
    [-0.05,   0.0,   0.0,   0.0,   0.0,   0.0,   0.0, -0.05] +
    [-0.05,   0.0,   0.0,   0.0,   0.0,   0.0,   0.0, -0.05] +
    [ 0.05,  0.10,  0.10,  0.10,  0.10,  0.10,  0.10,  0.05] +
    [  0.0,   0.0,   0.0,   0.0,   0.0,   0.0,   0.0,   0.0]

  /** `queenEval`, one rank per row: square 0 is a1, square 63 is h8. */
  const QueenTable: seq<real> :=
    [-0.20, -0.10, -0.10, -0.05, -0.05, -0.10, -0.10, -0.20] +
    [-0.10,   0.0,  0.05,   0.0,   0.0,   0.0,   0.0, -0.10] +
    [-0.10,  0.05,  0.05,  0.05,  0.05,  0.05,   0.0, -0.10] +
    [  0.0,   0.0,  0.05,  0.05,  0.05,  0.05,   0.0, -0.05] +
    [-0.05,   0.0,  0.05,  0.05,  0.05,  0.05,   0.0, -0.05] +
    [-0.10,   0.0,  0.05,  0.05,  0.05,  0.05,   0.0, -0.10] +
    [-0.10,   0.0,   0.0,   0.0,   0.0,   0.0,   0.0, -0.10] +
    [-0.20, -0.10, -0.10, -0.05, -0.05, -0.10, -0.10, -0.20]

  /** The table read for a non-king piece. */
  function Table(k: Kind): (t: seq<real>)
    requires k != King
    ensures |t| == 64
  {
    match k
    case Pawn => PawnTable
    case Knight => KnightTable
    case Bishop => BishopTable
    case Rook => RookTable
    case Queen => QueenTable
  }

  /** No positional bonus or malus exceeds half a pawn. */
  ghost predicate WithinHalfPawn(t: seq<real>)
  {
    forall i :: 0 <= i < |t| ==> -0.5 <= t[i] <= 0.5
  }

  lemma PawnTableBounded() ensures WithinHalfPawn(PawnTable) {}
  lemma KnightTableBounded() ensures WithinHalfPawn(KnightTable) {}
  lemma BishopTableBounded() ensures WithinHalfPawn(BishopTable) {}
  lemma RookTableBounded() ensures WithinHalfPawn(RookTable) {}
  lemma QueenTableBounded() ensures WithinHalfPawn(QueenTable) {}

  lemma TableEntryBounded(k: Kind, i: nat)
    requires k != King && i < 64
    ensures -0.5 <= Table(k)[i] <= 0.5
  {
    match k
    case Pawn => PawnTableBounded();
    case Knight => KnightTableBounded();
    case Bishop => BishopTableBounded();
    case Rook => RookTableBounded();
    case Queen => QueenTableBounded();
  }
}
