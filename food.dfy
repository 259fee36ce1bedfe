/**
 * Food placement by rejection sampling. The random number generator is an
 * oracle: `draws` is the sequence of cells the generator would produce, one
 * cell per pass of the sampling loop, each coordinate already scaled and
 * floored into [0, BoardSize).
 */
module Food {
  import opened Board

  /** Every draw is a cell of the board, as floor(random() * BoardSize) is. */
  predicate ValidDraws(draws: seq<Position>) {
    AllInBounds(draws)
  }

  /** Some draw misses the snake, so the sampling loop stops within `draws`. */
  predicate HasFree(draws: seq<Position>, snake: seq<Position>) {
    exists i :: 0 <= i < |draws| && draws[i] !in snake
  }

  /** The index of the first draw that is not a cell of `snake`. */
  function FirstFree(draws: seq<Position>, snake: seq<Position>): (k: nat)
    requires HasFree(draws, snake)
    ensures k < |draws| && draws[k] !in snake
    ensures forall j :: 0 <= j < k ==> draws[j] in snake
    decreases |draws|
  {
    if draws[0] !in snake then 0
    else
      assert HasFree(draws[1..], snake) by {
        var i :| 0 <= i < |draws| && draws[i] !in snake;
        assert i > 0 && draws[1..][i - 1] == draws[i];
      }
      1 + FirstFree(draws[1..], snake)
  }

  /** The cell the sampling loop settles on: on the board and off the snake. */
  function PlaceFood(snake: seq<Position>, draws: seq<Position>): (f: Position)
    requires ValidDraws(draws) && HasFree(draws, snake)
    ensures InBounds(f) && f !in snake
    ensures f in draws
  {
    draws[FirstFree(draws, snake)]
  }

  /**
   * The do-while loop of the game: draw a cell, and draw again as long as
   * the cell lies on the snake. The result is the first draw off the snake.
   */
  method GenerateFood(snake: seq<Position>, draws: seq<Position>) returns (food: Position)
    requires ValidDraws(draws) && HasFree(draws, snake)
    ensures InBounds(food) && food !in snake
    ensures food == PlaceFood(snake, draws)
  {
    ghost var k := FirstFree(draws, snake);
    var i := 0;
    food := draws[i];
    while food in snake
      invariant 0 <= i <= k && food == draws[i]
      invariant forall j :: 0 <= j < i ==> draws[j] in snake
      decreases k - i
    {
      i := i + 1;
      food := draws[i];
    }
    assert i == k;
  }
}
