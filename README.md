# Snake game engine, modelled in Dafny

This project models the game engine of a single-screen snake game: a snake
moves on a 20 x 20 grid one cell per tick, grows when its head reaches the
food, and the game ends when the head leaves the board or lands on the
snake's own body. The engine keeps the snake (head first), the food cell,
the heading, the score, the high score and the `gameOver` / `isPlaying`
flags, and offers the tick, reset, start and pause operations and the
mapping from a swipe on the board to a new heading.

Modules:

- `Board`: cells, headings, the constants (`BoardSize` = 20, the initial
  snake at (10,10), the initial food at (5,5)) and `Move`, the one-cell step.
- `Food`: food placement by rejection sampling. The random number source is
  an oracle: a sequence of draws, each already a cell of the board. The loop
  keeps drawing while the cell lies on the snake (`GenerateFood`), and its
  result is the first draw off the snake (`FirstFree`, `PlaceFood`).
- `Swipe`: the pure decision from a swipe (dx, dy), the current heading and
  the playing flag to an optional new heading.
- `Game`: the state as a value (`GameState`), one function per operation
  (`Tick`, `Reset`, `Start`, `Pause`, `Steer`), the invariant `Inv`, and
  lemmas saying what the operations mean: crash handling, growth, scoring,
  the invariant kept by every operation and over whole sessions (`Run`).
- `Engine`: the class `SnakeGame` with the component's fields, updated in
  place by one method per handler. Each method is proved to leave the fields
  exactly as the matching `Game` function says and to keep `Inv`.
- `Scenarios`: concrete runs (eating, a wall, the body, reset after a lost
  game, a quick double swipe) and a client of the class.

Policies fixed by the code and kept in the model:

- Self-collision is checked against the whole body before the tail moves,
  so moving into the cell the tail is about to vacate ends the game.
- A crash leaves snake, food and scores untouched; it only sets `gameOver`
  and clears `isPlaying`.
- The high score is raised to the new score whenever a bite passes it.
- The reversal guard compares the swipe with the current heading only, so
  two swipes between ticks can turn the snake around
  (`Scenarios.DoubleSwipeReverses`); the next tick may then move the head
  back onto the body and end the game.
- The initial food is the fixed cell (5,5) (`InitialFood`); it is drawn at
  random only by a reset, a start after a lost game, or a bite.
- A touch ending while the game is not playing returns before the recorded
  touch start is cleared.

## Model

| member | source | states |
|---|---|---|
| `Board.Opposite` | src/components/SnakeGame.tsx:133-143 | the reverse heading differs from the heading and lies on the same axis |
| `Board.Move` | src/components/SnakeGame.tsx:58-71 | the new head differs from the old by exactly one unit on exactly one axis; the y coordinate is kept iff the heading is horizontal, and the sign of the change is Left/Right on x and Up/Down on y |
| `Board.MoveThenOpposite` | src/components/SnakeGame.tsx:58-71 | a step followed by a step in the opposite heading returns to the start cell |
| `Board.MoveInjective` | src/components/SnakeGame.tsx:58-71 | two headings give the same next cell only if they are the same heading |
| `Food.FirstFree` | src/components/SnakeGame.tsx:33-38 | the index of the draw the sampling loop stops at: it is off the snake and every earlier draw is on it |
| `Food.PlaceFood` | src/components/SnakeGame.tsx:31-40 | the placed food is in bounds, not a cell of the snake it was given, and one of the random draws |
| `Food.GenerateFood` | src/components/SnakeGame.tsx:31-40 | the do-while rejection loop returns a cell in bounds and off the snake, and it is exactly the first random draw off the snake |
| `Swipe.SwipeDirection` | src/components/SnakeGame.tsx:122-146 | a heading is chosen iff playing, the larger of \|dx\| and \|dy\| exceeds 30 and the pointed heading is not the reverse of the current one; the axis is horizontal iff \|dx\| > \|dy\|; the chosen heading's sign agrees with the delta |
| `Game.Initial` | src/components/SnakeGame.tsx:20-29 | the state a mounted game starts in: a one-cell snake, score 0, neither playing nor over, the stored high score, and the invariant holds |
| `Game.Tick` | src/components/SnakeGame.tsx:51-106 | no-op unless running; a crash sets gameOver and clears isPlaying; otherwise the head is prepended and either score +10 with food from `PlaceFood` on the grown snake, or the tail is dropped; its contract: the heading is kept, the high score never drops, the length grows by 0 or 1 and the score by 10 times that, and the snake only changes while the game stays running |
| `Game.Reset` | src/components/SnakeGame.tsx:42-49 | back to the initial snake, heading Right, score 0, not over and not playing, with food from `PlaceFood` off the initial snake; the high score is kept and the invariant holds |
| `Game.Start` | src/components/SnakeGame.tsx:150-155 | `Reset` first when the game is over, then isPlaying is set: the game is running and the high score is unchanged; a game not over keeps snake, food and score |
| `Game.Pause` | src/components/SnakeGame.tsx:157-159 | isPlaying is cleared and every other field is kept |
| `Game.Steer` | src/components/SnakeGame.tsx:130-147 | the heading becomes the one `SwipeDirection` selects, if any; only the heading changes, only while playing, and never to the reverse of the current heading |
| `Game.TickWhenStopped` | src/components/SnakeGame.tsx:52 | a tick while the game is over or not playing changes nothing |
| `Game.TickCrash` | src/components/SnakeGame.tsx:73-85 | when the new head leaves [0,20) on an axis or equals any body cell (tail included), the game is over, not playing, and snake, food, score, high score and heading are unchanged |
| `Game.TickAdvance` | src/components/SnakeGame.tsx:87-104 | otherwise the new head is the old head moved in the current heading, the rest is the old snake (minus its last cell unless food was eaten), the length grows by one exactly when food is eaten, and the game is still running |
| `Game.TickScore` | src/components/SnakeGame.tsx:90-98 | eating adds exactly 10 to the score and sets the high score to the larger of it and the new score; without eating neither changes; the high score never decreases |
| `Game.TickFood` | src/components/SnakeGame.tsx:99-102 | eaten food is replaced by the first random cell off the grown snake, in bounds and off the new snake; uneaten food stays |
| `Game.DistinctCons` | src/components/SnakeGame.tsx:81-87 | a head not on a duplicate-free body gives a duplicate-free snake when put in front |
| `Game.TickPreservesInv` | src/components/SnakeGame.tsx:74-104 | every tick keeps all cells in bounds and pairwise distinct, the food on the board and off the snake, the score a non-negative multiple of 10 equal to 10 x (length - 1) and at most the high score, and never playing while over |
| `Game.TickKeepsSnakeShape` | src/components/SnakeGame.tsx:74-102 | from a snake on the board with no repeated cell, a tick gives a snake on the board with no repeated cell, needing nothing of food or score |
| `Game.ResetSpec` | src/components/SnakeGame.tsx:42-49 | reset gives snake [(10,10)], heading Right, score 0, not over, not playing, food in bounds and off (10,10), high score unchanged, and the invariant |
| `Game.StartSpec` | src/components/SnakeGame.tsx:150-155 | start resets first exactly when the game is over, then the game is running; the high score is unchanged |
| `Game.PauseSpec` | src/components/SnakeGame.tsx:157-159 | pause clears only the playing flag |
| `Game.SteerSpec` | src/components/SnakeGame.tsx:130-146 | a swipe only changes the heading, only while playing, and never to the reverse of the current heading |
| `Game.ApplyPreserves` | src/components/SnakeGame.tsx:42-159 | each engine operation keeps the invariant and does not lower the high score |
| `Game.RunPreserves` | src/components/SnakeGame.tsx:42-159 | over any sequence of operations the invariant holds and the high score is monotone |
| `Game.InitialInv` | src/components/SnakeGame.tsx:14-29 | the initial state (snake at (10,10), food at (5,5), heading Right, score 0) satisfies the invariant |
| `Engine.SnakeGame.constructor` | src/components/SnakeGame.tsx:20-29 | the fields start at the initial state, the high score from the stored value or 0 when none is stored |
| `Engine.SnakeGame.MoveSnake` | src/components/SnakeGame.tsx:51-106 | the in-place tick (copy, shift head, wall and body checks, unshift, score or pop) leaves exactly the state `Game.Tick` gives, and keeps the invariant |
| `Engine.SnakeGame.ResetGame` | src/components/SnakeGame.tsx:42-49 | the fields become `Game.Reset` of the old state, with food from the sampling loop |
| `Engine.SnakeGame.StartGame` | src/components/SnakeGame.tsx:150-155 | the fields become `Game.Start` of the old state |
| `Engine.SnakeGame.PauseGame` | src/components/SnakeGame.tsx:157-159 | the fields become `Game.Pause` of the old state |
| `Engine.SnakeGame.HandleTouchStart` | src/components/SnakeGame.tsx:116-119 | records the touch position and changes no game field |
| `Engine.SnakeGame.HandleTouchEnd` | src/components/SnakeGame.tsx:121-148 | without a recorded touch or while not playing nothing changes; otherwise the heading is steered by the delta from the touch start and the touch is cleared |
| `Scenarios.EatScenario` | src/components/SnakeGame.tsx:87-99 | moving right from (10,10) onto food at (11,10) gives snake [(11,10),(10,10)], score 10 and new food at the first free draw |
| `Scenarios.WallScenario` | src/components/SnakeGame.tsx:74-78 | moving left from (0,5) ends the game with the snake unchanged |
| `Scenarios.SelfScenario` | src/components/SnakeGame.tsx:81-85 | a snake curled into a square that moves onto its second cell ends the game |
| `Scenarios.ResetScenario` | src/components/SnakeGame.tsx:42-49 | reset after a lost game with score 30 and high score 50 gives score 0, not over, high score 50 |
| `Scenarios.DoubleSwipeReverses` | src/components/SnakeGame.tsx:130-146 | swiping up and then left before a tick turns a right-moving snake to Left |

## Left out

- Rendering, CSS and the cell classification used for drawing: user interface only.
- The interval timer that calls the tick every 150 ms and React's state batching and closure capture: the tick is an explicitly called method that reads the current fields.
- `Math.random`: replaced by the `draws` oracle; the probability distribution is not modelled.
- GenerateFood: the model requires that some draw misses the snake, so it does not model the endless loop on a full board.
- Writing the high score to local storage: only the in-memory high-score field is modelled; the stored value enters as the constructor's parameter, already parsed to a natural number.
- Touch event objects: the handlers take integer coordinates; fractional pixel coordinates are not modelled.
- capacitor.config.ts is a packaging configuration without logic and is not part of this model.
