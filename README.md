# Snake game core, modelled in Dafny

This project models the grid-based snake simulation of `ch3_snake/snake.hpp`. The
simulation is a small state machine. A `Snake` keeps a head cell, a body ordered
from tail to head (the head is the last cell) and a heading. A `Board` owns the
grid size, the food cell, the starting cell and the snake. One call of `update`
is one tick. It tests the cell ahead for a collision with a wall or the body. If
the snake is about to eat, it respawns the food. Then it moves the snake.

Modules:

- `Grid` (`grid.dfy`): `grid_coords_t` as `Coord` over 32-bit unsigned
  coordinates (`u32`), and `Direction`. `NextCell` is `get_next_head_location`.
  It uses the wrapping `++`/`--` of `unsigned int` written out.
- `Snakes` (`snakes.dfy`): the class `Snake`, whose methods update `head`, `body`
  (a `seq`) and `direction` in place. `Moved` is the value of the body after one
  `move`. `Move` (the shift loop) and `HasSnake` (the linear search) are proved
  against their specifications.
- `Boards` (`boards.dfy`): the class `Board` and `Step`. `Step` is the value-level
  meaning of one `update`: the tick is blocked, or it yields the new body and the
  new food. Lemmas about ticks sit beside it: which states a tick keeps, reversal
  into the neck, and the food-placement finding below.
- `FreeCells` (`free_cells.dfy`): when the food respawn can stop. A body shorter
  than the number of playable cells leaves a free cell.

Three behaviours of the code shape the model:

- A growing move does not keep the tail. The shift loop drops it, the old head
  stays in the last slot, and the new head is appended after it. So the body is
  `old[1..] + [old head, new head]`, and from two cells on it holds the old head
  twice (`GrowthRepeatsOldHead`). A "no duplicate cells" invariant
  does not hold for this code.
- After eating, the new food is drawn against the body before the move, so it can
  land on the new head (see Findings). "Food is never on the body" therefore is
  not an invariant of `Board.Update`. It is one of `Board.UpdateCorrected`.
- The wall test treats column and row 0 and everything at or past `grid_size` as
  a wall. The playable cells are `1 .. grid_size - 1` on both axes (`Interior`).
  A wrapped coordinate (0 stepped down to 2^32 - 1) is always a wall
  (`NextCellWraps` and `Collides`).

## Model

| member | source | states |
|---|---|---|
| `Grid.NextCell` | ch3_snake/snake.hpp:37-54 | the next cell differs from the head; north/south keep the column and change the row, east/west keep the row and change the column |
| `Grid.NextCellFollowsHeading` | ch3_snake/snake.hpp:37-54 | away from the ends of the unsigned range the step is exactly the heading table (north y-1, east x+1, south y+1, west x-1) and the new cell shares a side with the head |
| `Grid.NextCellWraps` | ch3_snake/snake.hpp:40-51 | stepping west from column 0 or north from row 0 wraps to 2^32 - 1; stepping east or south from 2^32 - 1 wraps to 0 |
| `Grid.StepBack` | ch3_snake/snake.hpp:37-54 | a step followed by a step in the opposite heading returns to the starting cell, wrap-around included |
| `Snakes.Moved` | ch3_snake/snake.hpp:60-73 | a move keeps the body length, or adds exactly one cell when growing; the last cell is the new head |
| `Snakes.MovedSingle` | ch3_snake/snake.hpp:64-72 | a one-cell snake becomes `[new head]`, or `[old head, new head]` when growing |
| `Snakes.MovedCells` | ch3_snake/snake.hpp:60-73 | a cell is on the moved body iff it is the new head, an old cell past the tail position, or (growing) the old head: the tail is not kept |
| `Snakes.GrowthRepeatsOldHead` | ch3_snake/snake.hpp:64-70 | with two or more cells, growth leaves the old head in two adjacent slots, so the body has a duplicate |
| `Snakes.MovedChained` | ch3_snake/snake.hpp:60-73 | if consecutive cells are equal or side by side before a move to a cell beside the head, they still are after it |
| `Snakes.Snake.constructor` | ch3_snake/snake.hpp:29-31 | a new snake has head and body `[head]`; its heading is left arbitrary |
| `Snakes.Snake.NextHeadLocation` | ch3_snake/snake.hpp:37-54 | the cell the head enters next under the current heading (`NextCell(head, direction)`); stepping back from it in the opposite heading returns to the head; it reads only the snake and changes nothing |
| `Snakes.Snake.SetDirection` | ch3_snake/snake.hpp:56 | the heading becomes the given one, unconditionally |
| `Snakes.Snake.Move` | ch3_snake/snake.hpp:60-73 | the new head is the next cell of the old head and heading, the new body is `Moved(old body, new head, grown)`, the heading is kept, and the head is still the last body cell |
| `Snakes.Snake.HasSnake` | ch3_snake/snake.hpp:76-86 | the search answers true iff the cell is on the body, and changes nothing |
| `Boards.Step` | ch3_snake/snake.hpp:137-152 | a tick is blocked iff the next cell collides; otherwise the next cell is playable and was not on the body, the body grows by one iff the next cell is the food, the head becomes the next cell, and the food changes only when eaten |
| `Boards.ReverseIsBlocked` | ch3_snake/snake.hpp:137-142 | after a step in some direction, a snake with a neck that is turned the opposite way is blocked by its own neck |
| `Boards.StepKeepsPlay` | ch3_snake/snake.hpp:137-152 | a successful tick keeps every body cell playable, the body chained, and the food playable |
| `Boards.FoodCanRespawnOnHead` | ch3_snake/snake.hpp:144-150 | on a grid of size 3, a legal respawn after eating puts the food on the new head |
| `Boards.SpawnAfterMoveKeepsFoodOff` | ch3_snake/snake.hpp:144-151 | if the respawn is drawn against the body after the move, food that was off the body stays off it |
| `Boards.FreshBoardHasFreeCell` | ch3_snake/snake.hpp:105-108 | with the snake on a playable starting cell, a cell the respawn can stop on exists iff the grid size is at least 3 |
| `Boards.WallAhead` | ch3_snake/snake.hpp:129-142 | on a grid of size 11, a head at (1,1) heading west is blocked by the wall |
| `Boards.EatAhead` | ch3_snake/snake.hpp:144-151 | on a grid of size 5, a head at (2,2) heading east onto food at (3,2) grows to `[(2,2), (3,2)]` and takes the respawned food |
| `Boards.Board.constructor` | ch3_snake/snake.hpp:112-117 | the board starts with body `[init]`, the given grid size and starting cell, and food on a cell that does not collide |
| `Boards.Board.SpawnNewFood` | ch3_snake/snake.hpp:97-109 | the food ends on a cell for which the collision test is false against the current body; nothing else changes |
| `Boards.Board.UpdateSnakeDir` | ch3_snake/snake.hpp:125 | the snake's heading becomes the given one; body and food are kept |
| `Boards.Board.IsCollision` | ch3_snake/snake.hpp:127-135 | a cell does not collide iff it lies in columns and rows `1 .. grid_size - 1` and is not on the body |
| `Boards.Board.Update` | ch3_snake/snake.hpp:137-152 | the tick does what `Step` says for the food it respawns; a blocked tick leaves body, head, heading and food unchanged; an eaten food is replaced by a cell free against the body before the move |
| `Boards.Board.UpdateCorrected` | ch3_snake/snake.hpp:144-151 | the same tick with the respawn after the move: a blocked tick leaves body, head, heading and food unchanged, and the food stays off the body |
| `Boards.Board.Reset` | ch3_snake/snake.hpp:154-159 | a fresh snake with body `[init]`, food on a cell that does not collide with it, and the result true |
| `FreeCells.RespawnAfterMoveCanStop` | ch3_snake/snake.hpp:105-108 | a snake at least two cells shorter than `(grid_size - 1)^2` always meets the respawn condition of the corrected tick |
| `FreeCells.FreeCellExists` | ch3_snake/snake.hpp:105-108 | a body shorter than `(grid_size - 1)^2` leaves a cell that does not collide, so the respawn loop can stop |

## Left out

- The SDL driver in `ch3_snake/main.cpp` is not modelled: window, input, drawing and frame delay. Its pause-and-reset on a false `update` is a caller of the core.
- The starfield demo in `ch1_StarField/test.cpp` is not modelled. It is floating-point animation without logical state.
- `Boards.Board.SpawnNewFood`: the random draws are not modelled. The do-while loop is one nondeterministic choice of a cell the loop can stop on, with both coordinates below `grid_size`. Rejected draws leave no trace, since each draw overwrites `food_loc`. The method requires that such a cell exists, because the source's loop never ends otherwise.
- `Boards.Board.constructor` requires the starting cell to be playable, which the source leaves unchecked (its default `{0, 0}` is a wall cell). It also requires a free cell, which is the condition for the respawn loop to end.
- `Snakes.Snake.constructor` leaves the heading arbitrary, because the source never initialises it. A value outside the four enumerators is not modelled.
- The getters (`get_body`, `get_head`, `get_direction`, `get_grid_size`, `get_snake`, `get_food_loc`) are field reads. The unused `grid` vector with `get_grid` is left out. So is the `Snake(int, int)` overload, which only converts to `grid_coords_t`.
- `Boards.Board.Reset`: the `unique_ptr` swap is an assignment of a freshly allocated `Snake`.
- The `int` bounds of the random distribution (`uniform_int_distribution<>` over `0 .. grid_size - 1`) are not modelled for grid sizes above 2^31.

## Findings

| source | as written | input that shows it | evidently intended | confidence | as-written member | corrected member |
|---|---|---|---|---|---|---|
| ch3_snake/snake.hpp:144-150 | when the snake eats, `spawn_new_food` runs before `move`, so the new food is tested against the body before the move, and the cell the head is entering counts as free | grid size 3, body `[(1,1)]`, heading east, food at (2,1): the respawn may draw (2,1), which is then both the new head and the food | new food never lies on the snake, as the comment before the respawn loop says; draw it after the move | high (not executed) | `Boards.Board.Update`, `Boards.FoodCanRespawnOnHead` | `Boards.Board.UpdateCorrected`, `Boards.SpawnAfterMoveKeepsFoodOff` |
