# Snake game engine — a Dafny model

This project models the game-state engine of a browser snake game written in
JavaScript (`script.js`). The canvas is divided into 20-pixel cells. The snake
is a list of cells with the head first. A timer calls `updateGame` every
100 ms. Each call moves the head one cell in the current direction and wraps
it around the edges of the canvas. The call ends the game if the head lands
on the snake, and otherwise either eats the food (10 points, the snake grows,
new food is placed) or drops the tail. Arrow keys and finger movements set
the direction directly, refusing only the exact reverse of the current one.
`startGame` and `restartGame` reset the snake, direction and score.

Modules:

- `Grid` (`grid.dfy`): cells, the canvas, board cells, the toroidal `Wrap`.
- `Controls` (`controls.dfy`): directions, the keydown and touchmove handlers.
- `Food` (`food.dfy`): food placement, and a pigeonhole proof that a free cell
  exists while the snake is shorter than the board.
- `Game` (`game.dfy`): the game state, the tick, the state invariant,
  start, restart and the page-load state.
- `Session` (`session.dfy`): ticks and input events in any interleaving, and
  the invariant over whole runs.
- `Scenarios` (`scenarios.dfy`): concrete ticks on a 400×400 canvas.

The tick is split in two parts. `Game.Advance` is a pure function for
everything except the choice of the next food cell. `Game.Tick` is a method
that completes the tick: on an eating tick it asks `Food.GenerateFood` for a
free cell, which is chosen with `:|` over column and row indices. The ghost
predicate `Game.Ticked` describes every result a tick may have.

The invariant `Game.Valid` says:

- the snake is non-empty;
- its cells are distinct board cells (inside the canvas and multiples of 20);
- each cell is one move from the next;
- the food is on a board cell not covered by the snake;
- the score is exactly 10 × (length − 1).

Behaviour of the code worth knowing, which a reader might expect to be
different:

- There is no pending intent. The handlers write the direction at once and
  compare against the latest written value. Two quick inputs between ticks
  can therefore turn the snake around (`Controls.TwoInputsCanReverse`,
  `Scenarios.QuickReversalIsFatal`).
- There is no swipe-distance threshold. Any non-zero movement along the
  dominant axis counts.
- The high score is not persisted. It is an in-memory number that survives
  restarts within one page load.
- `touchstart` only records the reference point for the next `touchmove`
  (script.js:33-36; the `TouchBegin` event of `Session`).
- `startGame` calls `updateGame` right away (script.js:72). So after a start
  the snake has already taken one step, and may already have eaten
  (`Game.StartGame`).

## Model

| member | source | states |
|---|---|---|
| Grid.Wrap | script.js:96-100 | After wrapping, a coordinate lies in `[0, extent)`, and one already on the canvas is left unchanged. |
| Grid.WrapIsModulo | script.js:97-100 | For a grid-aligned coordinate at most one cell off the canvas, the wrap equals reduction modulo the extent: below 0 goes to `extent - 20`, `extent` goes to 0. The result stays grid-aligned. |
| Controls.KeyDown | script.js:17-27 | The keydown handler never sets the reverse of the current direction. An arrow that is not the reverse is obeyed. Any other key, and a refused arrow, leave the direction unchanged. |
| Controls.TouchMove | script.js:38-62 | The reference point becomes the current touch. If `abs(dx) > abs(dy)` only LEFT/RIGHT can result; otherwise, ties included, only UP/DOWN. A zero movement changes nothing. The result is never the reverse, and equals pressing the arrow that the swipe stands for. |
| Controls.TwoInputsCanReverse | script.js:18-26 | A quarter-turn arrow followed by the arrow opposite to the original heading turns the snake fully around between two ticks. |
| Food.GenerateFood | script.js:215-222 | The food cell is a board cell (in bounds and grid-aligned) that the given snake does not cover. |
| Food.FreeCellWhenNotFull | script.js:217-220 | A snake with fewer cells than the board has leaves a free cell, so the rejection loop can stop. |
| Game.Move | script.js:88-100 | The moved head is always on the canvas, wherever it started. |
| Game.MoveIsToroidal | script.js:88-100 | From a board cell, the new head is the old one moved by exactly 20 pixels along the direction, modulo the canvas size. It is again a board cell. |
| Game.Advance | script.js:85-121 | A stopped game is unchanged. The game stops exactly when the new head hits the pre-move snake, tail included; then snake, score and food stay, and the high score becomes `max(highScore, score)`. Otherwise the new head is first and the rest is a prefix of the old snake. Length grows by 1 and score by 10 exactly on eating, the old tail is kept on eating, and the high score is untouched. |
| Game.Tick | script.js:85-121 | A non-eating tick is `Advance`. An eating tick keeps the game running, puts the new head in front of the whole old snake, adds 10, and places food on a board cell not covered by the updated snake. |
| Game.TickPreservesValid | script.js:102-121 | A tick keeps the invariant: distinct in-bounds grid-aligned cells, adjacent neighbours, free food, and score equal to 10 × (length − 1). |
| Game.TickIsMonotone | script.js:86-121 | Score, high score and length never decrease on a tick. A stopped game stays stopped and unchanged. |
| Game.RoomToEat | script.js:116-118 | A valid game whose snake leaves at least two board cells free satisfies the food-placement precondition of `Tick`. |
| Game.Reset | script.js:64-69 | The snake becomes `[(200,200)]`, direction RIGHT, score 0, running true. The high score is untouched and the new state is valid. |
| Game.StartGame | script.js:64-73 | After the start and its immediate first tick, the game is running, heading RIGHT, with the high score untouched. The head is one step right of `(200,200)` and the old origin is kept only if food was eaten, with score 0 or 10 to match. The state is valid. |
| Game.RestartGame | script.js:75-83 | Restarting from any state, running or stopped, gives the same guarantees as `StartGame`: running, heading RIGHT, high score untouched, head one step right of `(200,200)`, score matching the length, and a valid state. |
| Game.InitialState | script.js:4-11 | At page load: the snake is `[(200,200)]`, heading RIGHT, score and high score 0, not running, with the food already on a free board cell. |
| Game.OnKeyDown | script.js:17-27 | A key press changes only the direction. An arrow that is not the reverse of the current direction is obeyed. Any other key, and a reversing arrow, leave the direction unchanged, so it never becomes the reverse. |
| Session.Handle | script.js:17-62 | Key, touchstart and touchmove events leave everything in the game except the direction unchanged, and never set the reverse of the current direction. Its step relation `Follows` is the one `Session.RunKeepsValid` reasons about. |
| Session.RunKeepsValid | script.js:85-131 | Over any interleaving of ticks and input events, the invariant holds and score and high score never decrease. A stopped game stays stopped, with only its direction changed. |
| Scenarios.FirstStepRight | script.js:88-120 | `[(200,200)]` heading RIGHT on 400×400 becomes `[(220,200)]`. |
| Scenarios.WrapAtRightEdge | script.js:97-100 | `[(380,200),(360,200)]` heading RIGHT gets the head `(0,200)` with no collision. |
| Scenarios.WrapAtTopEdge | script.js:99 | Leaving through the top re-enters at row 380. |
| Scenarios.EatingGrows | script.js:113-118 | Moving onto the food scores 10 and keeps the old tail. |
| Scenarios.RunIntoSecondSegment | script.js:103-110 | Turning into the second segment stops the game. The high score rises only if it is beaten. |
| Scenarios.TailCountsAsOccupied | script.js:103 | Moving onto the current tail cell is fatal, even though that cell would be vacated. |
| Scenarios.QuickReversalIsFatal | script.js:17-27 | A single reversing arrow is refused, but ArrowUp then ArrowLeft while heading RIGHT kills a two-cell snake on the next tick. |

## Left out

- Drawing (`drawSnake`, `drawFood`, `drawScore`, `drawHighScore`, and clearing the canvas): canvas output with floating-point arcs and random sprinkles.
- DOM glue (button enabling, event-listener registration, the game-over `alert`): user-interface side effects with no bearing on the state.
- Timer scheduling (`setTimeout`, `clearTimeout`, the 100 ms speed): the game loop is modelled as repeated `Tick` calls. `clearTimeout` in `restartGame` only prevents a second timer chain, so `RestartGame` reduces to `StartGame`.
- The canvas size is a parameter. It must be a multiple of 20 and larger than 200 in both directions, so that the starting cell `(200,200)` lies on the board.
- Food.GenerateFood: does not model the uniform random draws or their floating-point arithmetic, only which cells the loop can return. It needs a free cell to exist, because the loop never ends on a full board.
- Game.Tick: requires a free cell for the new food on an eating tick, for the same reason. `Game.RoomToEat` gives a sufficient condition.
- Controls.TouchMove: touch coordinates are exact reals, not IEEE doubles. Rounding in the subtraction of client coordinates is not modelled, and only the first touch point of an event is considered.
- No high-score persistence exists in the code, so none is modelled.
