/**
 * Turning a swipe on the board into a new heading for the snake.
 */
module Swipe {
  import opened Wrappers
  import opened Board

  /** A swipe must travel more than this on its dominant axis to count. */
  const SwipeThreshold: int := 30

  function Max(a: int, b: int): int {
    if a >= b then a else b
  }

  /** The heading a swipe points in: its dominant axis, then its sign. */
  function Pointed(dx: int, dy: int): Direction {
    if Abs(dx) > Abs(dy) then (if dx > 0 then Right else Left)
    else (if dy > 0 then Down else Up)
  }

  /**
   * The direction a swipe by (dx, dy) selects while the snake heads
   * `current`, or None when the swipe is ignored: the game is not playing,
   * the swipe is too short, or it asks for a 180-degree turn.
   */
  function SwipeDirection(dx: int, dy: int, current: Direction, isPlaying: bool): (r: Option<Direction>)
    ensures r == if isPlaying && Max(Abs(dx), Abs(dy)) > SwipeThreshold && Pointed(dx, dy) != Opposite(current)
                 then Some(Pointed(dx, dy)) else None
    ensures r.Some? ==> isPlaying && Max(Abs(dx), Abs(dy)) > SwipeThreshold
    ensures r.Some? ==> (IsHorizontal(r.value) <==> Abs(dx) > Abs(dy))
    ensures r.Some? ==> r.value != Opposite(current)
    ensures r == Some(Right) ==> dx > 0
    ensures r == Some(Left) ==> dx < 0
    ensures r == Some(Down) ==> dy > 0
    ensures r == Some(Up) ==> dy < 0
  {
    if !isPlaying then None
    else if Max(Abs(dx), Abs(dy)) > SwipeThreshold then
      if Abs(dx) > Abs(dy) then
        if dx > 0 && current != Left then Some(Right)
        else if dx < 0 && current != Right then Some(Left)
        else None
      else
        if dy > 0 && current != Up then Some(Down)
        else if dy < 0 && current != Down then Some(Up)
        else None
    else None
  }
}
