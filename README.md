# Snake game engine, modelled in Dafny

This project models the engine of the browser snake game in `public/snake/script.js`. The
game is a timer-ticked state machine over a few module-level variables: the `snake` (head
first), the heading `direction`, the `score`, the tick interval `speed`, the queue of
pending moves `moveQueue`, the `food` cell and the `gameLoop` timer. The model has two
layers:

- **Values** (modules `Grid`, `Directions`, `Speed`, `Food`, `Collision`, `Engine`,
  `UTurn`). These are the pure rules: the 20-pixel box on a 30 x 30 grid (a 600 x 600
  canvas), the arrow-key table, the reversal guards, the movement and growth step, the
  speed policy, the collision condition, food placement and the unused U-turn helpers.
  The properties are proved here as function contracts and lemmas.
- **State** (module `SnakeGame`, class `Game`). Its fields are the script's variables.
  Its methods `ChangeDirection`, `MoveSnake`, `CheckCollision`, `Update`, `StartGame`,
  `RestartGame` and the constructor (module load) update them in place. Each of them
  states its whole new state through the value layer and keeps the invariant `Valid()`.
  `MoveSnake` is built from two blocks, `ConsumeQueuedMove` and `UpdateSpeed`. Each block
  states the fields it changes; `ConsumeQueuedMove` also keeps `Valid()`, and
  `UpdateSpeed` keeps the speed on its ladder. The invariant says:
  - the snake is non-empty and grid-aligned;
  - the speed is in [50, 100] on the 5-step ladder;
  - the score is a non-negative multiple of 10;
  - the food is an aligned cell of the canvas and not on the snake;
  - a live timer runs at the current speed.

`Math.random` is replaced by `draws`, the sequence of number pairs in [0, 1) that
the food-placement retry loop would consume, one pair per round. The timer is the
field `gameLoop`: the interval of the live repeating timer, or `None` when none runs.
The `{score}` message to the host page is the value that `CheckCollision` and
`Update` return.

Three behaviours of the code that its own structure suggests were not intended. The model
follows the code in each:

- **The reversal guard does not stop a reversal into the neck.** `changeDirection`
  already refuses a reversal at input time (script.js:137-139). `moveSnake` checks the
  queued move a second time (script.js:165-176). That second check only makes sense if a
  tick is never meant to move straight back. But `changeDirection` overwrites `direction` at once,
  so `moveSnake` compares the queued move with a heading the snake never moved in.
  Example: the snake is moving right and the keys Left, Up, Left arrive within one tick.
  The tick then moves left, onto the neck (`Directions.QueuedInputsCanReverse`,
  `Engine.QueuedInputsReverseIntoNeck`). With at most one input per tick this cannot
  happen, over any run of events (`Directions.OneKeyPerTickNeverReverses`). What the code does guarantee is
  that `direction` after a tick is never the reverse of `direction` before it.
- **`SPEED.RANDOM_THRESHOLD` has no effect.** The interval reaches `SPEED.MIN` at score
  100, before the threshold of 200. So in a game begun by a restart, the threshold branch
  never changes the speed (`Speed.SpeedAfterClosedForm`,
  `Speed.ThresholdBranchChangesNothing`).
- **Start and restart do not cancel a timer.** `restartGame` and `startGame` install a
  timer without calling `clearInterval`. Only a collision clears the timer, and eating
  replaces it.

## Model

| member | source | states |
|---|---|---|
| Directions.Opposite | public/snake/script.js:123-128 | the opposite of a heading is never the heading itself |
| Directions.OppositeInvolutive | public/snake/script.js:123-128 | the opposite of the opposite is the heading itself |
| Directions.KeyDirection | public/snake/script.js:130-135 | a recognised key is exactly the arrow key naming its direction |
| Directions.KeyRoundTrip | public/snake/script.js:130-135 | key table and key names are inverse: exactly the four arrow keys are recognised, each to its own direction |
| Directions.TurnOnInput | public/snake/script.js:130-139 | the direction after an input is never the reverse of the one before, and is either unchanged or the key's direction |
| Directions.TurnOnInputAdopts | public/snake/script.js:137-139 | an arrow key becomes the new direction if and only if it does not reverse the current one |
| Directions.TurnOnInputIgnores | public/snake/script.js:137-139 | an unrecognised key leaves the direction unchanged |
| Directions.NextDirection | public/snake/script.js:162-177 | with an empty queue the direction is kept; otherwise the first queued move is adopted exactly when it does not reverse the current direction; the result never reverses it |
| Directions.Dequeued | public/snake/script.js:162-163 | a non-empty queue loses exactly its first entry; an empty queue stays empty |
| Directions.OneKeyPerTickNeverReverses | public/snake/script.js:116-177 | over any run of key events and ticks with at most one key between two ticks, no tick moves straight against the move before it |
| Directions.Apply | public/snake/script.js:137-177 | a key event keeps the last move and appends the new direction to the queue; a tick dequeues one entry and moves in the new direction; neither reverses `direction` |
| Directions.QueuedInputsCanReverse | public/snake/script.js:116-177 | keys Left, Up, Left within one tick while moving right queue Right, Up, Left and make the tick move left, against the previous move |
| Speed.NextSpeed | public/snake/script.js:193-200 | below the threshold the interval drops by 5 exactly when it is above 50; from the threshold on it is 50; it stays on the ladder and never grows |
| Speed.SpeedAfterClosedForm | public/snake/script.js:188-200 | after n foods from a restart the score is 10n and the interval is 100 - 5n until n = 10, then 50 |
| Speed.SpeedCurveProperties | public/snake/script.js:188-200 | within a game the interval stays in [50, 100], never increases and is 50 once the score reaches 200 |
| Speed.ThresholdBranchChangesNothing | public/snake/script.js:193-200 | at and above the threshold the interval is already 50, and the decrement branch would give 50 too |
| Food.DrawCoord | public/snake/script.js:110-111 | a random number in [0, 1) gives a multiple of 20 in [0, 600) |
| Food.DrawCell | public/snake/script.js:110-111 | each drawn cell is grid-aligned and inside the canvas |
| Food.FirstFree | public/snake/script.js:107-114 | the placed food is the first drawn cell off the snake; it is aligned, inside the canvas and not on any segment |
| Food.GenerateFood | public/snake/script.js:107-114 | the retry loop returns that first free drawn cell |
| Collision.Collides | public/snake/script.js:210-218 | a collision is exactly: head x or y below 0 or at least 600, or the head equal to a segment at index 1 or more |
| Collision.RightWallCollides | public/snake/script.js:212-214 | a head at x = 600, one step past the last column, collides |
| Collision.SingleSegmentOnlyHitsWalls | public/snake/script.js:210-218 | a one-segment snake collides exactly when it is outside the canvas |
| Engine.NewHead | public/snake/script.js:179-183 | the new head is exactly one box away along one axis, vertical exactly for UP/DOWN, and aligned when the old head is |
| Engine.NewHeadReverse | public/snake/script.js:179-183 | a step followed by the opposite step returns to the starting cell |
| Engine.Advance | public/snake/script.js:179-207 | the new body is the new head followed by the old segments shifted back by one; the length grows by 1 exactly when the new head is the food |
| Engine.AdvanceKeepsAligned | public/snake/script.js:179-207 | a grid-aligned snake stays grid-aligned after a step |
| Engine.AdvanceKeepsFoodFree | public/snake/script.js:185-207 | food off the snake stays off it after a step that does not reach it |
| Engine.ReversalHitsNeck | public/snake/script.js:179-218 | turning straight back collides with the neck once the snake has 3 or more segments, whatever the food |
| Engine.TwoSegmentReversalSwaps | public/snake/script.js:185-218 | a 2-segment snake that turns straight back without eating swaps head and tail |
| Engine.QueuedInputsReverseIntoNeck | public/snake/script.js:160-218 | the Left, Up, Left inputs within one tick drive a 3-segment snake into its neck |
| Engine.EatScenario | public/snake/script.js:179-188 | one segment at (100,100) moving right onto food at (120,100) becomes (120,100), (100,100) |
| UTurn.UTurnPatterns | public/snake/script.js:32-37 | each heading has two patterns; each is an arrow key for a different sideways heading, followed by the key of the reverse heading |
| UTurn.IsUTurnPattern | public/snake/script.js:39-49 | a detected U-turn has exactly two keys, one of them the key of the reverse heading |
| UTurn.FindMatch | public/snake/script.js:56-58 | the found pattern is the first matching one; nothing is found exactly when no pattern matches |
| UTurn.GetUTurnSequence | public/snake/script.js:51-64 | a returned pair is a pattern of the heading whose two keys are both pressed |
| UTurn.DetectionAgreesWithSequence | public/snake/script.js:39-64 | a U-turn is detected exactly when two keys were pressed and a sequence is found, and both its keys are pressed |
| UTurn.UTurnSequenceReverses | public/snake/script.js:32-37 | fed to the input handler in order, a returned sequence turns sideways, then to the opposite heading |
| SnakeGame.Game.constructor | public/snake/script.js:20-26 | module load: snake at (100,100), RIGHT, score 0, speed 100, empty queue, food placed off the snake, no timer |
| SnakeGame.Game.StartGame | public/snake/script.js:100-105 | the score is reset to 0 and a timer runs at the current speed |
| SnakeGame.Game.ChangeDirection | public/snake/script.js:116-142 | the direction is updated as by the key table and guard, and exactly one entry, the new direction, is appended to the queue |
| SnakeGame.Game.ConsumeQueuedMove | public/snake/script.js:162-177 | a non-empty queue loses its first entry, which becomes the direction unless it reverses it; the invariant is kept |
| SnakeGame.Game.UpdateSpeed | public/snake/script.js:193-200 | the speed becomes the policy's next interval for the current score; from the ladder it stays on the ladder and does not grow |
| SnakeGame.Game.MoveSnake | public/snake/script.js:160-208 | one queued move is consumed by the guard; the body advances; eating adds 10 to the score, grows the snake by 1, places new food off it and reschedules the timer at the new speed; otherwise the length, score, speed, food and timer stay |
| SnakeGame.Game.CheckCollision | public/snake/script.js:210-223 | on a collision the timer is cleared and the final score is reported; otherwise nothing changes |
| SnakeGame.Game.Update | public/snake/script.js:238-244 | one tick: the guard, the step and the eat or no-eat update of `MoveSnake`, then the timer cleared and the score reported exactly on a collision; a live timer afterwards implies the head is inside the canvas and off the body |
| SnakeGame.Game.RestartGame | public/snake/script.js:225-236 | snake at (100,100), RIGHT, score 0, speed 100, empty queue, food off the snake, timer at 100 |

## Left out

- Drawing (`drawSnake`, `drawFood`, `clearRect` in `update`): these only render and change no state.
- DOM wiring, the start and game-over modals, the score text and `event.preventDefault`: these are UI plumbing.
- The `{gameReady}` and `{gameStart}` messages to the host page: these are cross-frame output. The `{score}` message is the value `CheckCollision` returns.
- Timer scheduling (`setInterval`/`clearInterval`): this is host behaviour. `gameLoop` keeps only the interval of the live timer. A second timer leaked by starting or restarting over a live one is not modelled, because the field is overwritten as the handle is. The buttons that do this are visible only while no timer runs.
- `console.log` and the unused `keyBuffer`/`MAX_BUFFER_SIZE`: these have no effect.
- Food.GenerateFood: the retry loop is modelled over a finite sequence of random draws that contains a free cell. A board with no free cell, where the source loops forever, is outside the model, because the loop ends only with probability 1.
- Food.DrawCoord: `Math.random() * 600 / 20` is computed in exact reals, not in floating point. At a few doubles just below k/30, `r * 600` rounds up to a multiple of 20. There the source lands one column or row further than the model (for example 340 instead of 320). Both cells are aligned and inside the canvas, so no contract depends on the difference.
- Directions.KeyDirection: a key string that names an inherited property of the lookup object (such as "constructor") would give a truthy non-direction in JavaScript. The model treats it as unrecognised. No keyboard key has such a name.
- UTurn.GetUTurnSequence: a heading outside the four directions, for which the source returns `null`/`false`, cannot occur, because `Dir` has only the four.
- Scores and coordinates are unbounded integers. In the game they stay far below the range where JavaScript numbers lose precision.
- gulpfile.js (build, minification, deployment) is not part of this model.
