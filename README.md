# Snake game: the snake and one iteration of the game loop

This project models the logic of a small Pygame snake game in Dafny. Two modules make up the model:

- `SnakeModel` (snake.dfy) covers the snake. It holds a head-first body of pixel positions, a heading and a one-shot `grow` flag. A step moves the head one 20-pixel cell and drops the last segment. When growth is pending, the step then doubles the new last segment. A turn is refused when it points straight back. The module also has the apple, self-collision and boundary tests. The tests and the step's effect are pure functions over the body (`ReachedApple`, `SelfCollision`, `BoundaryCollision`, `Walked`). The `Snake` class holds the mutable fields, and its `Walk` and `ChangeDirection` methods are proved against those functions.
- `GameModel` (game.dfy) covers the session. It owns the snake, the apple block, the score and the `running` flag. It handles one input event and runs one iteration of the main loop: handle the events, step, eat the apple if the head is on it, then stop on a collision. It also has a loop bounded by a tick count. The session invariant `SessionValid` holds through every iteration. `Game.Valid` applies it to the object's fields. The invariant ties the state together:
  - the body is non-empty and on the grid;
  - the apple sits on an admissible cell;
  - body length plus pending growth always equals 3 plus the score.

The window is fixed at 1000 × 500 pixels. The cell size and the apple size are both 20.

The placement's randomness is passed in as input. `RandomApplePos(w, h, i, j)` takes the two integers that the source draws (`i`, `j`) as arguments. Its precondition is the range the source draws them from. `RandomApplePosCovers` proves that every admissible cell can be chosen.

Two behaviours of the program are worth stating plainly, and the model keeps both:

- When the snake grows, the segment dropped by the step does not come back. The new last segment is a copy of the segment before it (main.py:46-49).
- A new apple may land on the snake, because the placement excludes no cell (main.py:82-83).

An Escape or Quit event does not cut the current iteration short. It only clears `running`. The step, the apple check and the collision test still run in that iteration (main.py:114-129). `Game.Tick` and `TickStep` state exactly this.

The apple test `check_collision` (main.py:59-60) is the predicate `SnakeModel.ReachedApple`, which compares the head with the apple. Its effect is stated through `TickStep` and `Game.Tick`.

`TickStep` is one loop iteration on a `Session` value. `RunTicks` is that step applied once per input until the game stops, and `TicksPlayed` counts the iterations it plays. `Game.Tick` and `Game.Run` are proved to produce exactly these states. `RunningAfterEvent` and `DirectionAfterEvent` are `handle_event` as values. `RunningAfterEvents` and `DirectionAfterEvents` fold them over the event loop of one iteration. `Play` is the entry point (main.py:137-139): it builds a game and runs it.

The 180° check is applied to each key press, not to each iteration. So two arrow keys handled in the same iteration can reverse the snake (`TwoArrowsReverse`). Pressing Up then Left in the very first iteration ends the game by self-collision (`QuickTurnAtStartCollides`). The model keeps this behaviour as written.

## Model

| member | source | states |
|---|---|---|
| SnakeModel.Moved | main.py:35-45 | the head moves exactly one cell along exactly one axis; the sign of the move identifies the direction (Down +y, Up −y, Left −x, Right +x); grid alignment is kept |
| SnakeModel.MovedUndoneByOpposite | main.py:36-43 | a step followed by a step in the opposite direction returns to the start |
| SnakeModel.Walked | main.py:34-50 | the new body is the moved head followed by the old body minus its last segment; it is one segment longer exactly when growth was pending, and then its last two segments are equal |
| SnakeModel.WalkedKeepsAlignment | main.py:35-49 | if every segment is a multiple of 20 on both axes, it stays so after a step |
| SnakeModel.FirstStepFromStart | main.py:26-46 | `[(100,100),(80,100),(60,100)]` heading right becomes `[(120,100),(100,100),(80,100)]` |
| SnakeModel.WalkedTimes | main.py:34-50 | n steps without growth keep the body's length |
| SnakeModel.StraightRun | main.py:34-63 | a straight three-segment snake moving right stays straight, shifted by 20·n, and never hits itself |
| SnakeModel.StraightRunFromStart | main.py:26-63 | the initial snake walking right has the body shifted by 20·n after n steps and no self-collision |
| SnakeModel.NewDirection | main.py:52-57 | the new heading is never the opposite of the current one, and is either the current one or the arrow pressed |
| SnakeModel.NewDirectionAccepts | main.py:52-57 | an arrow is taken exactly when it is not the reverse of the current heading (both directions of the iff) |
| SnakeModel.NewDirectionIgnoresNonArrows | main.py:52-57 | a key that is not an arrow leaves the heading unchanged |
| SnakeModel.SelfCollision | main.py:62-63 | true iff the head equals some segment at index ≥ 1 |
| SnakeModel.InitialBodyHasNoSelfCollision | main.py:62-63 | the initial body has no self-collision |
| SnakeModel.OverlappingBodySelfCollides | main.py:62-63 | the degenerate body `[(100,100),(100,100)]` self-collides |
| SnakeModel.ReversingIntoNeck | main.py:52-63 | with three or more segments, a snake whose last step went opposite to `d` hits itself when it steps in direction `d`, with or without growth (the step back lands on the neck) |
| SnakeModel.BoundaryCollision | main.py:65-67 | true iff the head is outside `[0, width) × [0, height)` |
| SnakeModel.LeavingLeftEdge | main.py:65-67 | a head at x = 0 that steps left collides with the boundary, on any board |
| SnakeModel.Snake.constructor | main.py:25-28 | a new snake has the initial body, heads right, and has no growth pending |
| SnakeModel.Snake.Walk | main.py:34-50 | the body becomes `Walked` of the old body, heading and flag; the heading is unchanged; `grow` is false afterwards |
| SnakeModel.Snake.ChangeDirection | main.py:52-57 | the heading becomes `NewDirection` of the old heading and the key, and so is never the exact reverse |
| GameModel.RandomApplePos | main.py:81-84 | for draws in the source's ranges, the apple cell is a multiple of 20 in `[0, w−20] × [0, h−20]` |
| GameModel.RandomApplePosCovers | main.py:81-84 | every such cell is produced by some pair of admissible draws |
| GameModel.AppleMayLandOnSnake | main.py:82-83 | admissible draws can place the apple on the snake's head: no cell is excluded |
| GameModel.EatingNeverLeavesBoard | main.py:120-126 | a head on an admissible apple cell is never out of bounds |
| GameModel.RunningAfterEvent | main.py:96-103 | `handle_event`'s effect on `running`: the flag stays set iff it was set and the event is neither Escape nor Quit |
| GameModel.DirectionAfterEvent | main.py:96-103 | `handle_event`'s effect on the heading: never the reverse, either unchanged or the arrow pressed, and unchanged for any non-arrow event |
| GameModel.RunningAfterEvents | main.py:114-115 | the event loop never sets `running` again once it is cleared (its exact value is stated by `RunningAfterEventsIff`) |
| GameModel.RunningAfterEventsIff | main.py:96-115 | after a batch of events the game runs iff it ran before and no event was Escape or Quit |
| GameModel.DirectionAfterEventsChoice | main.py:96-115 | `DirectionAfterEvents`, the heading after the event loop: it is the old heading or the direction of an arrow key in the batch |
| GameModel.DirectionAfterEventsWithoutArrows | main.py:96-115 | `DirectionAfterEvents` over a batch without arrow keys leaves the heading unchanged |
| GameModel.OneEventNeverReverses | main.py:100-101 | one event never turns the snake to the exact reverse |
| GameModel.TwoArrowsReverse | main.py:114-115 | Up then Left handled in one iteration turn a right-moving snake left |
| GameModel.QuickTurnAtStartCollides | main.py:113-126 | Up then Left in the first iteration makes the first step a self-collision |
| GameModel.Block.constructor | main.py:12-15 | a block starts at the given position |
| GameModel.Block.SetPosition | main.py:20-22 | the block moves to the given position |
| GameModel.Game.constructor | main.py:70-79 | a new session has a freshly built snake and apple block that it owns; the snake is the initial one, the apple is at the drawn cell, the score is 0 and the game is running; the session invariant holds |
| GameModel.Game.HandleEvent | main.py:96-103 | Escape and Quit set `running` to false; an arrow changes only the heading, and only as `ChangeDirection` allows; other events change nothing (the frame allows only `running` and the heading) |
| GameModel.Game.Tick | main.py:113-132 | the heading is the result of the events; the body is one step of the old body; the score rises by 1 exactly when the new head is on the old apple, and otherwise stays; on a hit, growth is pending and the apple moves to the drawn cell; otherwise the apple stays; `running` afterwards is true iff no exit event came and the new head hits neither itself nor the boundary; the session invariant is kept; the new state equals `TickStep` of the old state, the events and the draws |
| GameModel.TickStep | main.py:113-129 | one iteration on a session value: the body grows by one exactly when growth was pending; the score rises by at most 1, and it rises exactly when growth becomes pending; the game runs afterwards only if it ran before |
| GameModel.TickStepKeepsValid | main.py:113-129 | one iteration keeps the session invariant (non-empty aligned body, admissible apple, body length + pending growth = 3 + score) |
| GameModel.RunTicks | main.py:113-132 | the `while self.running` loop fed one input per iteration; the body never shrinks (its other properties are stated by `RunTicksProperties`) |
| GameModel.TicksPlayed | main.py:113-132 | the number of iterations the loop plays is at most the number of inputs |
| GameModel.RunTicksProperties | main.py:113-132 | a bounded run keeps the invariant; the score never falls and rises at most one per iteration played; the run stops early only once the game no longer runs; a finished game is left unchanged; a running game plays at least one iteration when it is given one |
| GameModel.Game.Run | main.py:112-134 | the final state is `RunTicks` of the initial state and the inputs, and the number of iterations played is `TicksPlayed`; the invariant is kept; the score never falls and rises at most one per iteration; the run stops early only once `running` is false; a running game plays at least one given iteration; a finished game is not touched at all |
| GameModel.Game.RunLoop | main.py:113-132 | the loop of `Run`: each iteration is one `Tick`; the final state is `RunTicks` of the starting state and the inputs; the number of iterations is `TicksPlayed`; a finished game is not touched |
| GameModel.Play | main.py:137-139 | the entry point builds a fresh game and runs it; the final state is `RunTicks` of the initial session; the session invariant holds; the score is at most the number of iterations played; an early stop means the game is over |

## Left out

- Rendering: `Block.draw`, `Snake.draw`, `Game.draw`, `Game.draw_game_over`, image loading, fonts and `display.flip`. These are library calls with no behaviour to state. The block's image is not modelled.
- Pygame start-up and shutdown, window creation, and event polling. Events are the abstract `Event` datatype: a key press (arrow, Escape or another key), a quit request, or any other event.
- Pacing: `clock.tick(FPS)` and the two-second wait after game over are wall-clock delays.
- Random distribution: the draws are inputs, and only their range is stated. Uniformity is not modelled.
- GameModel.Game.Run: the source loop runs until `running` is false, with no bound. The model runs at most as many iterations as it is given inputs.
- SnakeModel.Snake.Walk: requires a non-empty body. On an empty body the source fails with an index error, and that failure is not modelled. Every body the game builds has at least three segments.
- GameModel.Play: runs the game for a bounded number of iterations, for the same reason as `Game.Run`. The call to `pygame.quit` is not modelled.
- GameModel.Game.Tick: requires `running`, because the loop condition guarantees it in the source.
