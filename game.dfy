/**
 * The game state as a value and the effect of each engine operation on it.
 * The class in module Engine holds the same fields and is proved to update
 * them exactly as these functions say; the lemmas here state what the
 * updates mean.
 */
module Game {
  import opened Wrappers
  import opened Board
  import opened Food
  import opened Swipe

  datatype GameState = GameState(
    snake: seq<Position>,   // head first, tail last
    food: Position,
    direction: Direction,
    score: int,
    highScore: int,
    gameOver: bool,
    isPlaying: bool)

  /**
   * What every reachable state satisfies: a non-empty snake of distinct
   * cells on the board, food on the board and off the snake, a score that
   * is a non-negative multiple of 10 matching the snake's growth and never
   * above the high score, and never both playing and over.
   */
  predicate Inv(g: GameState) {
    |g.snake| > 0 && AllInBounds(g.snake) && Distinct(g.snake) &&
    InBounds(g.food) && g.food !in g.snake &&
    0 <= g.score && g.score % 10 == 0 && |g.snake| == g.score / 10 + 1 &&
    g.score <= g.highScore &&
    !(g.gameOver && g.isPlaying)
  }

  /** The state of a freshly mounted game, given the stored high score. */
  function Initial(savedHighScore: nat): (r: GameState)
    ensures Inv(r) && !r.gameOver && !r.isPlaying
    ensures |r.snake| == 1 && r.score == 0 && r.highScore == savedHighScore
  {
    GameState(InitialSnake, InitialFood, Right, 0, savedHighScore, false, false)
  }

  /** The tick only acts while a game is running. */
  predicate Running(g: GameState) {
    !g.gameOver && g.isPlaying
  }

  /** The cell the head moves to on the next tick. */
  function NextHead(g: GameState): Position
    requires |g.snake| > 0
  {
    Move(g.snake[0], g.direction)
  }

  /** The next head leaves the board or lands on any cell of the body (the tail included). */
  predicate Crashes(g: GameState)
    requires |g.snake| > 0
  {
    !InBounds(NextHead(g)) || NextHead(g) in g.snake
  }

  /** The next tick moves the head onto the food. */
  predicate Eats(g: GameState) {
    |g.snake| > 0 && Running(g) && !Crashes(g) && NextHead(g) == g.food
  }

  /** The snake after the head has been put in front, before the tail is dropped. */
  function Grown(g: GameState): seq<Position>
    requires |g.snake| > 0
  {
    [NextHead(g)] + g.snake
  }

  /** What the tick needs of the random oracle: a free cell for the new food, if food is eaten. */
  predicate TickReady(g: GameState, draws: seq<Position>) {
    |g.snake| > 0 && ValidDraws(draws) && (Eats(g) ==> HasFree(draws, Grown(g)))
  }

  /**
   * One tick of the game clock: nothing happens unless the game is running;
   * a crash ends the game; otherwise the head is put in front and either
   * the food is eaten (score +10, new food off the grown snake) or the
   * tail is dropped.
   */
  function Tick(g: GameState, draws: seq<Position>): (r: GameState)
    requires TickReady(g, draws)
    ensures !Running(g) ==> r == g
    ensures |r.snake| > 0 && r.direction == g.direction && r.highScore >= g.highScore
    ensures |r.snake| == |g.snake| || |r.snake| == |g.snake| + 1
    ensures r.score - g.score == 10 * (|r.snake| - |g.snake|)
    ensures r.snake != g.snake ==> Running(g) && Running(r)
  {
    if g.gameOver || !g.isPlaying then g
    else
      var head := NextHead(g);
      if !InBounds(head) then g.(gameOver := true, isPlaying := false)
      else if head in g.snake then g.(gameOver := true, isPlaying := false)
      else if head == g.food then
        var grown := [head] + g.snake;
        var newScore := g.score + 10;
        g.(snake := grown, score := newScore,
           highScore := if newScore > g.highScore then newScore else g.highScore,
           food := PlaceFood(grown, draws))
      else
        g.(snake := [head] + g.snake[..|g.snake| - 1])
  }

  /** What reset needs of the random oracle: a draw off the initial snake. */
  predicate ResetReady(draws: seq<Position>) {
    ValidDraws(draws) && HasFree(draws, InitialSnake)
  }

  /** Back to the initial position with fresh food; the high score stays. */
  function Reset(g: GameState, draws: seq<Position>): (r: GameState)
    requires ResetReady(draws)
    ensures !r.gameOver && !r.isPlaying && r.highScore == g.highScore
    ensures InBounds(r.food) && r.food !in r.snake
    ensures 0 <= g.highScore ==> Inv(r)
  {
    g.(snake := InitialSnake, food := PlaceFood(InitialSnake, draws), direction := Right,
       gameOver := false, score := 0, isPlaying := false)
  }

  /** Start (or play again): a finished game is reset first. */
  function Start(g: GameState, draws: seq<Position>): (r: GameState)
    requires g.gameOver ==> ResetReady(draws)
    ensures Running(r) && r.highScore == g.highScore
    ensures !g.gameOver ==> r.snake == g.snake && r.food == g.food && r.score == g.score
  {
    (if g.gameOver then Reset(g, draws) else g).(isPlaying := true)
  }

  /** Pause: play stops, nothing else changes. */
  function Pause(g: GameState): (r: GameState)
    ensures !r.isPlaying && r.(isPlaying := g.isPlaying) == g
  {
    g.(isPlaying := false)
  }

  /** The heading after a swipe by (dx, dy); only the heading can change. */
  function Steer(g: GameState, dx: int, dy: int): (r: GameState)
    ensures r == g.(direction := r.direction)
    ensures r.direction != Opposite(g.direction)
    ensures r.direction != g.direction ==> g.isPlaying
  {
    match SwipeDirection(dx, dy, g.direction, g.isPlaying)
    case Some(d) => g.(direction := d)
    case None => g
  }

  // ---------------------------------------------------------------------
  // The tick

  /** A tick while the game is over or paused changes nothing. */
  lemma TickWhenStopped(g: GameState, draws: seq<Position>)
    requires TickReady(g, draws) && !Running(g)
    ensures Tick(g, draws) == g
  {
  }

  /**
   * A crash (a wall, or any body cell including the tail about to move
   * away) ends the game and leaves snake, food, scores and heading alone.
   */
  lemma TickCrash(g: GameState, draws: seq<Position>)
    requires TickReady(g, draws) && Running(g) && Crashes(g)
    ensures var r := Tick(g, draws);
      r.gameOver && !r.isPlaying &&
      r.snake == g.snake && r.food == g.food && r.score == g.score &&
      r.highScore == g.highScore && r.direction == g.direction
  {
  }

  /**
   * Without a crash, the head moves one cell in the current direction and
   * the rest of the snake is the old snake, minus its tail unless food was
   * eaten; so the length grows by one exactly when food is eaten.
   */
  lemma TickAdvance(g: GameState, draws: seq<Position>)
    requires TickReady(g, draws) && Running(g) && !Crashes(g)
    ensures var r := Tick(g, draws);
      |r.snake| > 0 && r.snake[0] == Move(g.snake[0], g.direction) &&
      r.snake[1..] == (if Eats(g) then g.snake else g.snake[..|g.snake| - 1]) &&
      |r.snake| == |g.snake| + (if Eats(g) then 1 else 0) &&
      Running(r) && r.direction == g.direction
  {
    var r := Tick(g, draws);
    assert r.snake[1..] == (if Eats(g) then g.snake else g.snake[..|g.snake| - 1]);
  }

  /**
   * Eating adds exactly 10 to the score and lifts the high score to the new
   * score when it is passed; otherwise neither changes. The high score
   * never decreases.
   */
  lemma TickScore(g: GameState, draws: seq<Position>)
    requires TickReady(g, draws)
    ensures var r := Tick(g, draws);
      r.score == g.score + (if Eats(g) then 10 else 0) &&
      r.highScore == (if Eats(g) then Max(g.highScore, r.score) else g.highScore) &&
      r.highScore >= g.highScore
  {
  }

  /** Eaten food is replaced by the first random cell off the grown snake; uneaten food stays. */
  lemma TickFood(g: GameState, draws: seq<Position>)
    requires TickReady(g, draws)
    ensures var r := Tick(g, draws);
      if Eats(g) then r.food == PlaceFood(Grown(g), draws) && InBounds(r.food) && r.food !in r.snake
      else r.food == g.food
  {
  }

  /** Putting a fresh cell in front of a distinct sequence keeps it distinct. */
  lemma DistinctCons(head: Position, s: seq<Position>)
    requires Distinct(s) && head !in s
    ensures Distinct([head] + s)
  {
    // The verifier finds this unaided; the steps are spelled out for the reader.
    var t := [head] + s;
    forall i, j | 0 <= i < j < |t| ensures t[i] != t[j] {
      if i == 0 {
        assert t[j] == s[j - 1];
      } else {
        assert t[i] == s[i - 1] && t[j] == s[j - 1];
      }
    }
  }

  /** Every tick keeps the invariant: the head was checked against the whole body first. */
  lemma TickPreservesInv(g: GameState, draws: seq<Position>)
    requires Inv(g) && TickReady(g, draws)
    ensures Inv(Tick(g, draws))
  {
    // The verifier finds this unaided; the case split is spelled out for the reader.
    if Running(g) && !Crashes(g) {
      var head := NextHead(g);
      var n := |g.snake|;
      if head == g.food {
        DistinctCons(head, g.snake);
      } else {
        var body := g.snake[..n - 1];
        assert Distinct(body);
        assert head !in body by {
          forall i | 0 <= i < |body| ensures body[i] != head {
            assert body[i] == g.snake[i];
          }
        }
        DistinctCons(head, body);
        assert g.food !in body by {
          forall i | 0 <= i < |body| ensures body[i] != g.food {
            assert body[i] == g.snake[i];
          }
        }
      }
    }
  }

  /**
   * The geometric part alone: a snake on the board without repeated cells
   * stays so after a tick, whatever the food and score bookkeeping.
   */
  lemma TickKeepsSnakeShape(g: GameState, draws: seq<Position>)
    requires TickReady(g, draws) && AllInBounds(g.snake) && Distinct(g.snake)
    ensures AllInBounds(Tick(g, draws).snake) && Distinct(Tick(g, draws).snake)
  {
    if Running(g) && !Crashes(g) {
      var head := NextHead(g);
      if head == g.food {
        DistinctCons(head, g.snake);
      } else {
        var body := g.snake[..|g.snake| - 1];
        assert head !in body by {
          forall i | 0 <= i < |body| ensures body[i] != head {
            assert body[i] == g.snake[i];
          }
        }
        DistinctCons(head, body);
      }
    }
  }

  // ---------------------------------------------------------------------
  // Lifecycle and steering

  /** Reset restores the initial position, keeps the high score, and keeps the invariant. */
  lemma ResetSpec(g: GameState, draws: seq<Position>)
    requires ResetReady(draws) && 0 <= g.highScore
    ensures var r := Reset(g, draws);
      r.snake == [Position(10, 10)] && r.direction == Right && r.score == 0 &&
      !r.gameOver && !r.isPlaying && r.highScore == g.highScore &&
      r.food != Position(10, 10) && InBounds(r.food) && Inv(r)
  {
  }

  /**
   * After start the game is running; only a finished game is reset, any
   * other state only starts playing.
   */
  lemma StartSpec(g: GameState, draws: seq<Position>)
    requires (g.gameOver ==> ResetReady(draws)) && Inv(g)
    ensures var r := Start(g, draws);
      Running(r) && Inv(r) && r.highScore == g.highScore &&
      (g.gameOver ==> r == Reset(g, draws).(isPlaying := true)) &&
      (!g.gameOver ==> r == g.(isPlaying := true))
  {
  }

  /** Pause stops play and keeps everything else. */
  lemma PauseSpec(g: GameState)
    requires Inv(g)
    ensures var r := Pause(g);
      !r.isPlaying && Inv(r) &&
      r.snake == g.snake && r.food == g.food && r.direction == g.direction &&
      r.score == g.score && r.highScore == g.highScore && r.gameOver == g.gameOver
  {
  }

  /** Steering only changes the heading, never to the reverse of the current one. */
  lemma SteerSpec(g: GameState, dx: int, dy: int)
    requires Inv(g)
    ensures var r := Steer(g, dx, dy);
      Inv(r) && r.direction != Opposite(g.direction) &&
      (r.direction != g.direction ==> g.isPlaying) &&
      r == g.(direction := r.direction)
  {
  }

  // ---------------------------------------------------------------------
  // Whole games

  /** One thing that can happen to the engine. Each operation that places food gets its own random draws. */
  datatype Event =
    | TickEvent(draws: seq<Position>)
    | ResetEvent(draws: seq<Position>)
    | StartEvent(draws: seq<Position>)
    | PauseEvent
    | SwipeEvent(dx: int, dy: int)

  predicate Enabled(g: GameState, e: Event) {
    match e
    case TickEvent(draws) => TickReady(g, draws)
    case ResetEvent(draws) => ResetReady(draws)
    case StartEvent(draws) => g.gameOver ==> ResetReady(draws)
    case PauseEvent => true
    case SwipeEvent(_, _) => true
  }

  function Apply(g: GameState, e: Event): GameState
    requires Enabled(g, e)
  {
    match e
    case TickEvent(draws) => Tick(g, draws)
    case ResetEvent(draws) => Reset(g, draws)
    case StartEvent(draws) => Start(g, draws)
    case PauseEvent => Pause(g)
    case SwipeEvent(dx, dy) => Steer(g, dx, dy)
  }

  /** Every event of `es` can happen in turn, starting from `g`. */
  predicate Runnable(g: GameState, es: seq<Event>)
    decreases |es|
  {
    |es| == 0 || (Enabled(g, es[0]) && Runnable(Apply(g, es[0]), es[1..]))
  }

  function Run(g: GameState, es: seq<Event>): GameState
    requires Runnable(g, es)
    decreases |es|
  {
    if |es| == 0 then g else Run(Apply(g, es[0]), es[1..])
  }

  /** Each single event keeps the invariant and does not lower the high score. */
  lemma ApplyPreserves(g: GameState, e: Event)
    requires Inv(g) && Enabled(g, e)
    ensures Inv(Apply(g, e)) && Apply(g, e).highScore >= g.highScore
  {
    // The lemma calls name the fact each case rests on.
    match e
    case TickEvent(draws) =>
      TickPreservesInv(g, draws);
      TickScore(g, draws);
    case ResetEvent(draws) =>
      ResetSpec(g, draws);
    case StartEvent(draws) =>
      StartSpec(g, draws);
    case PauseEvent =>
      PauseSpec(g);
    case SwipeEvent(dx, dy) =>
      SteerSpec(g, dx, dy);
  }

  /**
   * Over a whole session, from the initial state, every state reached
   * satisfies the invariant (so the score stays a non-negative multiple of
   * 10) and the high score never goes down.
   */
  lemma {:induction false} RunPreserves(g: GameState, es: seq<Event>)
    requires Inv(g) && Runnable(g, es)
    ensures Inv(Run(g, es)) && Run(g, es).highScore >= g.highScore
    decreases |es|
  {
    if |es| > 0 {
      ApplyPreserves(g, es[0]);
      RunPreserves(Apply(g, es[0]), es[1..]);
    }
  }

  /** The initial state satisfies the invariant. */
  lemma InitialInv(savedHighScore: nat)
    ensures Inv(Initial(savedHighScore))
  {
  }
}
