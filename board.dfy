/**
 * The playing field of the snake game: grid cells, the four headings, the
 * board constants and the one-cell step the head takes on every tick.
 */
module Board {

  /** A cell of the grid (also used for the raw touch coordinates). */
  datatype Position = Position(x: int, y: int)

  datatype Direction = Up | Down | Left | Right

  /** The board is BoardSize x BoardSize cells. */
  const BoardSize: int := 20

  /** The snake a fresh or reset game starts with: one cell in the middle. */
  const InitialSnake: seq<Position> := [Position(10, 10)]

  /** The food cell before the first reset places one at random. */
  const InitialFood: Position := Position(5, 5)

  function Abs(n: int): nat {
    if n < 0 then -n else n
  }

  predicate InBounds(p: Position) {
    0 <= p.x < BoardSize && 0 <= p.y < BoardSize
  }

  predicate AllInBounds(s: seq<Position>) {
    forall i :: 0 <= i < |s| ==> InBounds(s[i])
  }

  /** No cell occurs twice in `s`. */
  predicate Distinct(s: seq<Position>) {
    forall i, j :: 0 <= i < j < |s| ==> s[i] != s[j]
  }

  predicate IsHorizontal(d: Direction) {
    d == Left || d == Right
  }

  /** The heading a 180-degree turn from `d` would take. */
  function Opposite(d: Direction): (r: Direction)
    ensures r != d && IsHorizontal(r) == IsHorizontal(d)
  {
    match d
    case Up => Down
    case Down => Up
    case Left => Right
    case Right => Left
  }

  /**
   * The cell one step from `p` in direction `d` (screen coordinates: y grows
   * downwards). The result differs from `p` by exactly one unit on exactly
   * one axis, and the sign of the change names the direction.
   */
  function Move(p: Position, d: Direction): (r: Position)
    ensures Abs(r.x - p.x) + Abs(r.y - p.y) == 1
    ensures IsHorizontal(d) <==> r.y == p.y
    ensures r.x < p.x <==> d == Left
    ensures r.x > p.x <==> d == Right
    ensures r.y < p.y <==> d == Up
    ensures r.y > p.y <==> d == Down
  {
    match d
    case Up => Position(p.x, p.y - 1)
    case Down => Position(p.x, p.y + 1)
    case Left => Position(p.x - 1, p.y)
    case Right => Position(p.x + 1, p.y)
  }

  /** Stepping back in the opposite direction undoes a step. */
  lemma MoveThenOpposite(p: Position, d: Direction)
    ensures Move(Move(p, d), Opposite(d)) == p
  {
  }

  /** Different headings lead to different cells. */
  lemma MoveInjective(p: Position, d1: Direction, d2: Direction)
    ensures Move(p, d1) == Move(p, d2) <==> d1 == d2
  {
  }
}
