/**
 * Concrete runs of the engine: eating, hitting a wall, running into the
 * body, resetting after a lost game, and a quick double swipe.
 */
module Scenarios {
  import opened Wrappers
  import opened Board
  import opened Food
  import opened Game
  import opened Engine

  /** Moving right onto food at (11,10) grows the snake and scores 10. */
  lemma EatScenario()
    ensures HasFree([Position(10, 10), Position(11, 10), Position(3, 4)], [Position(11, 10), Position(10, 10)])
    ensures var g := GameState([Position(10, 10)], Position(11, 10), Right, 0, 0, false, true);
      var r := Tick(g, [Position(10, 10), Position(11, 10), Position(3, 4)]);
      r.snake == [Position(11, 10), Position(10, 10)] && r.score == 10 && r.highScore == 10 &&
      !r.gameOver && r.food == Position(3, 4)
  {
    var g := GameState([Position(10, 10)], Position(11, 10), Right, 0, 0, false, true);
    var draws := [Position(10, 10), Position(11, 10), Position(3, 4)];
    assert Grown(g) == [Position(11, 10), Position(10, 10)];
    assert draws[0] in Grown(g) && draws[1] in Grown(g) && draws[2] !in Grown(g);
    assert FirstFree(draws, Grown(g)) == 2;
  }

  /** Moving left from the left edge ends the game and leaves the snake where it was. */
  lemma WallScenario()
    ensures var g := GameState([Position(0, 5)], Position(7, 7), Left, 0, 0, false, true);
      var r := Tick(g, []);
      r.gameOver && !r.isPlaying && r.snake == [Position(0, 5)]
  {
  }

  /** A snake curled into a square runs into its own body. */
  lemma SelfScenario()
    ensures var g := GameState([Position(5, 5), Position(6, 5), Position(6, 6), Position(5, 6)],
                               Position(1, 1), Right, 30, 30, false, true);
      var r := Tick(g, []);
      r.gameOver && !r.isPlaying && r.snake == g.snake
  {
    var g := GameState([Position(5, 5), Position(6, 5), Position(6, 6), Position(5, 6)],
                       Position(1, 1), Right, 30, 30, false, true);
    assert NextHead(g) == g.snake[1];
  }

  /** Resetting after a lost game clears the score but keeps the high score. */
  lemma ResetScenario()
    ensures HasFree([Position(0, 0)], InitialSnake)
    ensures var g := GameState([Position(2, 2), Position(2, 3), Position(2, 4), Position(2, 5)],
                               Position(9, 9), Up, 30, 50, true, false);
      var r := Reset(g, [Position(0, 0)]);
      r.score == 0 && !r.gameOver && r.highScore == 50 && r.snake == [Position(10, 10)]
  {
    assert [Position(0, 0)][0] !in InitialSnake;
  }

  /**
   * The reversal guard compares with the current heading only: two swipes
   * before the next tick (up, then left) turn a right-moving snake around.
   */
  lemma DoubleSwipeReverses()
    ensures var g := GameState([Position(10, 10)], Position(1, 1), Right, 0, 0, false, true);
      Steer(Steer(g, 0, -40), -40, 0).direction == Left
  {
  }

  /**
   * A client of the class: start, swipe down, one tick moves the head down
   * a cell, and after pausing a tick changes nothing.
   */
  method EngineScenario()
  {
    var game := new SnakeGame(Some(20));
    assert game.State() == Initial(20);
    game.StartGame([]);
    assert game.isPlaying && game.snake == [Position(10, 10)];
    game.HandleTouchStart(100, 100);
    game.HandleTouchEnd(100, 160);
    assert game.direction == Down;
    game.MoveSnake([]);
    assert game.snake == [Position(10, 11)] && game.score == 0;
    game.PauseGame();
    game.MoveSnake([]);
    assert game.snake == [Position(10, 11)] && !game.isPlaying;
    assert game.highScore == 20;
  }
}
