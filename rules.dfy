/**
 * The fixed rules of the puzzle (class Rules of Cinderblock.cs) and the
 * piece record stored on a board (class Piece).
 *
 * Positions are integral grid cells. The source stores them in a
 * single-precision float vector, which holds them exactly while every
 * coordinate, and every coordinate plus or minus 2, is at most 2^24 in
 * magnitude; the model does not round larger ones.
 */
module Rules {
  /** EMPTY is only used while reading a board layout; it marks "no piece". */
  datatype PieceType = EMPTY | CINDER | DYNAMO

  datatype Direction = LEFT | RIGHT | UP | DOWN

  /** The directions in declaration order, as enumerated by the solver. */
  const Directions: seq<Direction> := [LEFT, RIGHT, UP, DOWN]

  datatype Pos = Pos(x: int, y: int)

  function Add(a: Pos, b: Pos): Pos
  {
    Pos(a.x + b.x, a.y + b.y)
  }

  function Twice(a: Pos): Pos
  {
    Pos(2 * a.x, 2 * a.y)
  }

  /** The unit step of each direction; "up" decreases the row index. */
  function DirectionOffset(d: Direction): (o: Pos)
    ensures (o.x == 0) != (o.y == 0)
    ensures -1 <= o.x <= 1 && -1 <= o.y <= 1
    ensures d == LEFT || d == RIGHT <==> o.y == 0
    ensures d == RIGHT || d == DOWN <==> o.x + o.y == 1
  {
    match d
    case LEFT => Pos(-1, 0)
    case RIGHT => Pos(1, 0)
    case UP => Pos(0, -1)
    case DOWN => Pos(0, 1)
  }

  /** A piece on a board: its type, its dictionary key and its cell. */
  datatype Piece = Piece(kind: PieceType, id: int, pos: Pos) {
    /** Piece equality ignores the id. */
    predicate Equals(other: Piece)
    {
      kind == other.kind && pos == other.pos
    }
  }
}
