/**
 * The game component's state and its handlers. Each handler updates the
 * fields in place and is proved to leave them as the matching function of
 * module Game says, so the lemmas there apply to every run of the engine.
 */
module Engine {
  import opened Wrappers
  import opened Board
  import opened Food
  import opened Swipe
  import opened Game

  class SnakeGame {
    var snake: seq<Position>
    var food: Position
    var direction: Direction
    var gameOver: bool
    var score: int
    var isPlaying: bool
    var highScore: int
    /** Where the current touch began, if one is in progress. */
    var touchStart: Option<Position>

    /** The game-relevant fields as a value. */
    function State(): GameState
      reads this
    {
      GameState(snake, food, direction, score, highScore, gameOver, isPlaying)
    }

    predicate Valid()
      reads this
    {
      Inv(State())
    }

    /** A fresh game; `savedHighScore` is the stored high score, None when nothing is stored. */
    constructor (savedHighScore: Option<nat>)
      ensures State() == Initial(if savedHighScore.Some? then savedHighScore.value else 0)
      ensures touchStart == None
      ensures Valid()
    {
      snake := InitialSnake;
      food := InitialFood;
      direction := Right;
      gameOver := false;
      score := 0;
      isPlaying := false;
      highScore := if savedHighScore.Some? then savedHighScore.value else 0;
      touchStart := None;
    }

    /** One tick of the game clock; `draws` are the random cells used if food has to be placed. */
    method MoveSnake(draws: seq<Position>)
      requires Valid() && TickReady(State(), draws)
      modifies this
      ensures State() == Tick(old(State()), draws)
      ensures touchStart == old(touchStart)
      ensures Valid()
    {
      ghost var g := State();
      TickPreservesInv(g, draws);
      if gameOver || !isPlaying {
        return;
      }
      var newSnake := snake;
      var head := Move(newSnake[0], direction);
      if !InBounds(head) {
        gameOver := true;
        isPlaying := false;
        return;
      }
      if head in newSnake {
        gameOver := true;
        isPlaying := false;
        return;
      }
      newSnake := [head] + newSnake;
      if head == food {
        var newScore := score + 10;
        if newScore > highScore {
          highScore := newScore;
        }
        score := newScore;
        food := GenerateFood(newSnake, draws);
      } else {
        newSnake := newSnake[..|newSnake| - 1];
      }
      snake := newSnake;
    }

    /** Back to the start position with freshly placed food; the high score is kept. */
    method ResetGame(draws: seq<Position>)
      requires Valid() && ResetReady(draws)
      modifies this
      ensures State() == Reset(old(State()), draws)
      ensures touchStart == old(touchStart)
      ensures Valid()
    {
      ResetSpec(State(), draws);
      snake := InitialSnake;
      food := GenerateFood(InitialSnake, draws);
      direction := Right;
      gameOver := false;
      score := 0;
      isPlaying := false;
    }

    /** The Start / Play Again button. */
    method StartGame(draws: seq<Position>)
      requires Valid() && (gameOver ==> ResetReady(draws))
      modifies this
      ensures State() == Start(old(State()), draws)
      ensures touchStart == old(touchStart)
      ensures Valid()
    {
      StartSpec(State(), draws);
      if gameOver {
        ResetGame(draws);
      }
      isPlaying := true;
    }

    /** The Pause button. */
    method PauseGame()
      requires Valid()
      modifies this
      ensures State() == Pause(old(State()))
      ensures touchStart == old(touchStart)
      ensures Valid()
    {
      PauseSpec(State());
      isPlaying := false;
    }

    /** A finger touches the board at (x, y). */
    method HandleTouchStart(x: int, y: int)
      modifies this
      ensures touchStart == Some(Position(x, y))
      ensures State() == old(State())
    {
      touchStart := Some(Position(x, y));
    }

    /**
     * The finger leaves the board at (x, y). Ignored without a touch in
     * progress or while not playing (the touch then stays recorded);
     * otherwise the swipe may turn the snake and the touch is forgotten.
     */
    method HandleTouchEnd(x: int, y: int)
      requires Valid()
      modifies this
      ensures old(touchStart).None? || !old(isPlaying) ==>
        State() == old(State()) && touchStart == old(touchStart)
      ensures old(touchStart).Some? && old(isPlaying) ==>
        State() == Steer(old(State()), x - old(touchStart).value.x, y - old(touchStart).value.y) &&
        touchStart == None
      ensures Valid()
    {
      if touchStart.None? || !isPlaying {
        return;
      }
      var deltaX := x - touchStart.value.x;
      var deltaY := y - touchStart.value.y;
      SteerSpec(State(), deltaX, deltaY);
      var d := SwipeDirection(deltaX, deltaY, direction, isPlaying);
      if d.Some? {
        direction := d.value;
      }
      touchStart := None;
    }
  }
}
