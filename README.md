# The snake game's state machine, in Dafny

This project models the game state of a small Snake game (`the_snake.py`), with the graphics library taken out. The model covers:

- the apple and its random relocation;
- the snake's body, with the head first, its current and pending direction, the tail cell dropped by the last move, and the growth flag;
- the arrow-key rule that refuses a reversal of the current direction;
- one iteration of the game loop: commit the direction, move, eat, and reset on self-collision.

The game works in pixels, and so does the model. A position is a multiple of `GRID_SIZE` = 20 inside the 640 x 480 window. A move wraps modulo 640 and 480. The snake starts at `[320, 240]` moving right. Python's `%` with a positive divisor agrees with Dafny's `%`, so the wrap is written as in the source. A cell view of the same board (32 columns by 24 rows) is defined beside it. Lemmas prove that the pixel move and the cell move agree.

Files:

- `grid.dfy` (module `Grid`): the constants, `Pos`, `Direction`, `Opposite`, the wrapping step `NextHead`, and the cell view with its lemmas.
- `the_snake.dfy` (module `TheSnake`):
  - the `Apple` class and the eat-path relocation loop `RelocateApple`;
  - the `Snake` class, whose methods update its fields in place;
  - the key rule `OnKey` and the key loop `HandleKeys`;
  - one game-loop iteration, `Tick`.
- `scenarios.dfy` (module `Scenarios`): three client methods. Each starts from a state set field by field and then relies only on the methods' contracts, unfolding `Advance` and `NextHead` where it needs concrete cells. The runs are wrapping around after sixteen moves, eating and then growing, and a reset that puts the apple on the snake.

How random numbers are handled: `randint` becomes a value the caller supplies. A `Draw` is a board cell, because `randint(0, GRID_WIDTH - 1)` and `randint(0, GRID_HEIGHT - 1)` only produce those. The rejection loop at lines 178-179 has no bound. `RelocateApple` therefore takes the sequence of successive draws and requires that one of them is free. `Tick` needs that only on the eat path. With that, the rejection loop's postcondition can be proved: the apple lands on the first draw that is not on the body.

`Snake.HeadPosition` models `get_head_position` (the_snake.py:93-95). It is a plain query with no contract of its own, so it has no row in the table below. `Move`, `CheckCollision` and `Tick` use it.

Behaviour of the code that the model keeps:

- After a self-collision reset, the apple is re-randomised once and does not avoid the body (the_snake.py:184). The avoidance loop exists only on the eat path (the_snake.py:174-179). `Tick` states this asymmetry, and `Scenarios.ResetIgnoresBody` exhibits a reset that leaves the apple on the snake.
- The reversal check runs when a key is handled (the_snake.py:143-150). `update_direction` commits whatever is pending (the_snake.py:89-91).
- `move` returns nothing. The dropped tail is kept in the field `last`, and `last` keeps its old value when the snake grows (the_snake.py:106-109).
- All positions are pixel coordinates (the_snake.py:61-64, 81, 100-101).

## Model

| member | source | states |
|---|---|---|
| Grid.Opposite | the_snake.py:12-15 | the reverse of a direction is the negated vector, and it is never the direction itself |
| Grid.NextHead | the_snake.py:99-102 | the wrapped step from a head on the grid lands on the grid again |
| Grid.PixelCellCorrespondence | the_snake.py:5-9 | grid-aligned pixel positions inside the window and board cells correspond one to one |
| Grid.WrapAxis | the_snake.py:100-101 | on one axis, wrapping the pixel coordinate modulo 640 or 480 equals wrapping the cell index modulo 32 or 24, scaled by 20 |
| Grid.NextHeadIsCellStep | the_snake.py:99-102 | the pixel move from any board cell equals the cell-level toroidal step, and stays on the board |
| Grid.UnwrapAxis | the_snake.py:100-101 | on one axis, a wrapped cell step followed by the step back returns to the starting index |
| Grid.NextHeadUndo | the_snake.py:99-102 | a step followed by a step in the opposite direction returns to the same position |
| Grid.EdgesWrap | the_snake.py:100-101 | leaving through any of the four edges re-enters at the opposite edge, e.g. right from x = 620 gives x = 0 |
| TheSnake.Apple.constructor | the_snake.py:54-57 | a new apple sits on the pixel of the supplied random cell, on the grid |
| TheSnake.Apple.RandomizePosition | the_snake.py:59-64 | the apple moves to the pixel of the supplied random cell, which is on the grid |
| TheSnake.RelocateApple | the_snake.py:176-179 | the apple ends on the first supplied draw that is not on the body: every earlier draw was on the body, and the final position is not |
| TheSnake.AdvanceKeepsBody | the_snake.py:104-109 | one step keeps the body on the grid and changes its length by exactly 1 when growing and by 0 otherwise |
| TheSnake.Snake.constructor | the_snake.py:74-77 | a new snake is in the reset state |
| TheSnake.Snake.Reset | the_snake.py:79-85 | positions becomes `[[320, 240]]`, direction RIGHT, no pending direction, no last tail, not growing |
| TheSnake.Snake.UpdateDirection | the_snake.py:87-91 | a pending direction becomes the direction and the slot is cleared, otherwise nothing changes; if nothing reversing was pending, the new direction is never the reverse of the old |
| TheSnake.Snake.Move | the_snake.py:97-109 | without growth: `[new_head] + old[:-1]`, same length, `last` is the old tail; with growth: `[new_head] + old`, length + 1, flag cleared, `last` unchanged; the body stays on the grid |
| TheSnake.Snake.Grow | the_snake.py:111-113 | sets the growth flag and changes nothing else |
| TheSnake.Snake.CheckCollision | the_snake.py:131-133 | true if and only if the head equals some element of `positions[1:]` |
| TheSnake.OnKey | the_snake.py:143-150 | an arrow key sets the pending direction unless it asks for the exact reverse of the current direction; a refused or non-arrow key leaves it unchanged |
| TheSnake.NoAcceptedKeyKeepsPending | the_snake.py:138-150 | after a frame's key events with no accepted arrow key, the pending direction is unchanged |
| TheSnake.LastAcceptedKeyWins | the_snake.py:138-150 | after a frame's key events, the pending direction is that of the last accepted arrow key |
| TheSnake.PendingAfterNeverReverses | the_snake.py:142-150 | key handling never leaves a pending direction that reverses the current one |
| TheSnake.HandleKeys | the_snake.py:136-150 | processes the key events in order, as the fold above, touching only the pending direction and keeping "no pending reversal" |
| TheSnake.Tick | the_snake.py:168-184 | the body stays non-empty and on the grid; eats exactly when the moved head is on the apple; collides exactly when the moved head is elsewhere in the body; then resets and places the apple on the reset draw without avoidance; otherwise the body is the moved body, the growth flag records the meal, a committed direction never reverses the old one, and an eaten apple lands on the first draw off the body |
| Scenarios.WrapAroundFromStart | the_snake.py:97-109 | sixteen moves right from the start give head `(0, 240)` and length 1 |
| Scenarios.EatThenGrow | the_snake.py:168-184 | body `[(100,100)]` moving right eats the apple at `(120,100)`, and the next tick gives `[(140,100), (120,100)]` |
| Scenarios.ResetIgnoresBody | the_snake.py:181-184 | a self-collision resets the snake, and a reset draw of the centre cell leaves the apple on the snake |

## Left out

- Window setup, all drawing (`draw`, `draw_cell`, `Snake.draw`), screen fill and display update (the_snake.py:27-29, 40-48, 66-68, 115-129, 187-190). These are calls into the graphics library.
- Quit events, `pygame.quit` and `SystemExit` (the_snake.py:138-141). These are I/O. Non-key events and non-arrow keys are modelled together as `OtherKey`, which changes nothing.
- `clock.tick` frame pacing (the_snake.py:162). This is timing.
- The distribution of `randint`. Random values are supplied by the caller, and the probabilistic termination of the rejection loop is not modelled. The model requires a free draw instead.
- The endless `while True` loop of `main` (the_snake.py:161). It is given as its body: `HandleKeys` followed by `Tick`, both of which keep the snake's invariant and the "no pending reversal" property. An unbounded sequence of ticks cannot be stated, because each tick's supply of free draws depends on the state.
- The colour constants and `SPEED`. They are cosmetic or timing only.
