/** Sides, piece kinds and material values of the engine's evaluator. */
module Pieces {
  datatype Color = White | Black
  datatype Kind = Pawn | Knight | Bishop | Rook | Queen | King
  datatype Piece = Piece(kind: Kind, color: Color)

  function Opponent(c: Color): (o: Color)
    ensures o != c
  {
    if c == White then Black else White
  }

  /** Material value of a piece kind: P 1, N 3, B 3.2, R 5, Q 9.
      A king is worth 0.0, which is what makes kings drop out of an army's
      value; the material and activity loops skip kings before reading it. */
  function Value(k: Kind): real
  {
    match k
    case Pawn => 1.0
    case Knight => 3.0
    case Bishop => 3.2
    case Rook => 5.0
    case Queen => 9.0
    case King => 0.0
  }

  /** White adds, Black subtracts. */
  function Signed(c: Color, x: real): real
  {
    if c == Black then -x else x
  }

  /** The same piece with the other colour. */
  function Recolor(p: Piece): (q: Piece)
    ensures q.kind == p.kind && q.color == Opponent(p.color)
  {
    p.(color := Opponent(p.color))
  }
}
