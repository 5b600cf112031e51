# Snake game state, modelled in Dafny

A model of the game-state core of a single-file Snake game (`main.py`):
a snake moving on a 20 x 15 grid that wraps at every edge, a direction rule
driven by the held arrow keys, fruit worth a fixed number of points, and the
per-tick update that moves the snake, eats, scores, respawns food and ends
the game on a self-collision. Drawing, sound, asset generation and the random
number generator are not part of the model; the random choices become inputs.

Modules, one per component of the program:

- `Wrappers` (`wrappers.dfy`): `Option`, for lookups and searches that can fail.
- `Grid` (`grid.dfy`): grid size, cells, `Direction` with its unit vectors,
  and `Step`, the wrapping move of one cell.
- `Fruits` (`fruits.dfy`): the five fruit kinds, their table keys and points.
- `SnakeBody` (`snake.dfy`): class `Snake`: `Reset`, `Move`, `Grow`,
  `CheckCollision`.
- `Steering` (`steering.dfy`): the arrow-key rule of `Game.handle_input`.
- `FoodSpawn` (`spawn.dfy`): class `Food` and `Game.spawn_food`.
- `GameState` (`game.dfy`): class `Game`: `Reset`, `Update`, the state part of
  `HandleInput`, and the invariant every reachable game keeps.

The program is Python, so its mutable objects become immutable records and
its methods become functions returning the new record. Python's `%` takes the
sign of the divisor. Dafny's `%` is Euclidean. The two agree for the divisors
20 and 15, so `Step` uses `%` directly: a step up from row 0 lands on row 14.

The random parts become parameters:

- spawn position: `Update` and `Reset` take the new food as an argument and
  require it to be free for the body it is placed next to;
- `FoodSpawn.Sample` runs the program's rejection loop over a given finite
  stream of draws;
- `FoodSpawn.FindFreeCell` is a deterministic search that finds a free cell
  whenever one exists;
- `GameState.SampledFoodFeedsUpdate` and `GameState.UpdateWithSearch` show
  that food from either source meets `Update`'s requirement;
- fruit kind: the `random.choice` result is the `fruit` argument.

`Snake.move` indexes `body[0]` and pops the last element, so Python would
raise on an empty body. The model states this as `requires |s.body| > 0`.
`GameState.Inv` shows that no reachable game has an empty body.

## Model

| member | source | states |
|---|---|---|
| Grid.Opposite | main.py:86-90 | the opposite direction differs from the original and its unit vector is the negated one |
| Grid.Delta | main.py:87-90 | each direction's vector is a unit step along exactly one axis: vertical for Up and Down, positive for Down and Right |
| Grid.Step | main.py:118-120 | the new head is on the grid and differs from head + direction vector by a multiple of the grid size in each coordinate |
| Grid.StepInterior | main.py:118-120 | away from the edges a step is plain vector addition |
| Grid.StepWrapsAtEdges | main.py:118-120 | leaving through one edge re-enters at the opposite one: (19, y) going right gives (0, y), (x, 0) going up gives (x, 14), and the two other edges likewise |
| Grid.StepUndo | main.py:118-120 | stepping back in the opposite direction returns to the starting cell |
| Grid.StepDirectionsDiffer | main.py:118-120 | from one cell, two different directions reach two different cells |
| Grid.OppositeInvolutive | main.py:86-90 | the opposite of the opposite is the original direction |
| Fruits.FromName | main.py:97-103 | a key is accepted exactly when it is the name of one of the five fruit kinds, and the result carries that name |
| Fruits.Name | main.py:98-102 | a fruit's key is the table key at that fruit's position in the table |
| Fruits.Points | main.py:97-106 | the points of a fruit are 10 plus 5 times its position in the table (apple 10, orange 15, blueberry 20, strawberry 25, grape 30) |
| Fruits.PointsOf | main.py:97-106 | the lookup by key succeeds exactly for the five fruit names and then gives that fruit's points; any other key fails |
| Fruits.NameRoundTrip | main.py:97-103 | every fruit kind's key leads back to that kind |
| Fruits.PointsStrictlyIncreasing | main.py:97-103 | the points strictly increase along the table, so distinct kinds have distinct values |
| Fruits.PointsRange | main.py:97-103 | every award is a multiple of 5 between 10 and 30 |
| SnakeBody.Reset | main.py:112-115 | a fresh snake is the single segment (5, 7), heads right, and has no growth pending |
| SnakeBody.Move | main.py:117-127 | the new head is the wrapped step from the old head; the rest is the old body without its tail, or the whole old body when growth was pending; the length is unchanged or one more; the flag is cleared and the direction kept |
| SnakeBody.Grow | main.py:129-130 | growth becomes pending and nothing else changes |
| SnakeBody.CheckCollision | main.py:132-133 | true exactly when the head's cell occurs again at some later index of the body |
| SnakeBody.MoveStaysInBounds | main.py:117-127 | a move keeps every segment on the grid |
| SnakeBody.GrowTwiceIsGrowOnce | main.py:122-130 | growing twice before a move is the same as growing once, and the move then adds exactly one segment |
| SnakeBody.CollisionIsDuplicate | main.py:132-133 | when the segments behind the head are distinct, a collision is exactly a repeated cell in the body |
| SnakeBody.MoveCollisionIff | main.py:122-133 | after a move from a duplicate-free body the kept segments stay distinct, and a collision happens exactly when the new head lands on a kept segment |
| SnakeBody.ChasingTheTailIsSafe | main.py:122-133 | without growth, moving into the cell the tail is leaving is not a collision, since the tail is popped before the head is inserted |
| SnakeBody.GrowingIntoTheTailCollides | main.py:122-133 | with growth pending the tail stays, so moving onto it is a collision |
| SnakeBody.MoveLeavesNeckBehind | main.py:117-127 | right after a move the second segment is one step behind the head, against the direction of travel |
| SnakeBody.OpeningMoves | main.py:112-130 | from a fresh snake one move gives [(6, 7)], and a grow then a move gives [(7, 7), (6, 7)] |
| Steering.Steer | main.py:174-182 | the new heading is never the reverse of the current one; it is either unchanged or a held key allowed by the rule; when some held key is allowed, the chosen one comes first in the order Up, Down, Left, Right among the allowed keys |
| Steering.SteerIsPriorityScan | main.py:175-182 | the chain of key tests equals scanning Up, Down, Left, Right and taking the first held, non-reversing key, or keeping the heading |
| Steering.SingleKey | main.py:175-182 | with one key held, the snake turns that way unless it is the reverse of the current heading, in which case nothing changes |
| Steering.SteeredMoveAvoidsNeck | main.py:174-188 | after a move, steering and moving again never puts the head on the neck |
| FoodSpawn.Sample | main.py:155-159 | the rejection loop yields the first draw not covered by the body; it yields nothing exactly when every draw is covered |
| FoodSpawn.SpawnFood | main.py:154-162 | new food lies on the grid, off the snake, and has the chosen fruit kind; it is missing only when every draw hit the snake |
| FoodSpawn.FindFreeCell | main.py:155-159 | a cell found is on the grid and off the snake; none is found only when the snake covers every cell |
| FoodSpawn.FreeCellExists | main.py:155-159 | a snake shorter than 300 segments leaves a free cell |
| FoodSpawn.FullBoardNeverSpawns | main.py:155-159 | when the snake covers every cell, no draws yield food |
| GameState.Reset | main.py:148-152 | a new game has score 0, is not over, holds the fresh snake and the spawned food, and satisfies the game invariant |
| GameState.Eats | main.py:191 | the snake eats exactly when one step from the current head in the current direction lands on the food |
| GameState.Update | main.py:184-199 | a finished game is left unchanged; otherwise the snake moves, the score rises by the eaten fruit's points or stays, the food is replaced only when eaten, growth is pending exactly when food was eaten, and the game is over exactly when the moved snake collides; the score never decreases |
| GameState.HandleInput | main.py:164-182 | restart is honoured only when the game is over and yields a fresh game: score 0, not over, the new food, body [(5, 7)] with no growth pending, heading Right unless a key steers it; a finished game otherwise stays unchanged; a running game only changes its heading, by the key rule, never to the reverse |
| GameState.ResetEstablishesInv | main.py:148-152 | a new game satisfies the invariant |
| GameState.UpdatePreservesInv | main.py:184-199 | a tick keeps the body non-empty and on the grid, the food on the grid and off the snake, the kept segments distinct, the game-over flag equal to head-in-body, and the score a multiple of 5 |
| GameState.HandleInputPreservesInv | main.py:164-182 | input handling keeps the invariant |
| GameState.UpdateLengthAccounting | main.py:188-195 | body length plus pending growth rises by one exactly when food is eaten, and is unchanged otherwise |
| GameState.RunningSnakeLeavesRoom | main.py:154-159 | while the game runs the body has no repeated cell and is shorter than the 300 cells of the grid, since the current food has a cell of its own |
| GameState.NoRoomAfterEating | main.py:154-159 | a running 299-segment snake with growth pending that reaches the food covers every cell after the move, so no free cell is left for the next food |
| GameState.SampledFoodFeedsUpdate | main.py:191-195 | food from the rejection loop over the moved body meets the tick's requirement, and the resulting game keeps the invariant |
| GameState.UpdateWithSearch | main.py:184-199 | a tick whose new food comes from the grid search keeps the invariant, leaves a finished game alone, and adds the eaten fruit's points; it fails only when the snake eats and then covers every cell |
| GameState.AppleThenGrape | main.py:191-195 | eating an apple and then a grape from score 0 gives score 40 |

## Left out

- Window, font and frame drawing (`Game.__init__`, `Game.draw`, `Game.run`): rendering and I/O only.
- Fruit sprite and sound generation with disk caching (`create_fruit_images`, `create_eating_sound`): procedural drawing and file I/O. `Food.image` is dropped from the food record.
- Sound playback on eating and the frame-rate clock: side effects with no effect on the game state.
- The quit event and `sys.exit`: process termination.
- Event polling: the restart key press becomes the `restart` argument of `GameState.HandleInput`, and the held arrow keys become a `Keys` record.
- The random number generator: `random.randint` draws become a finite stream (`FoodSpawn.Sample`) or a caller-supplied free cell, and `random.choice` of the fruit kind becomes an argument.
- FoodSpawn.Sample: models a finite prefix of the unbounded draw loop, returning `None` where the program would keep drawing.
- GameState.Update: requires a free cell for new food whenever food is eaten. When the snake comes to cover the whole grid no free cell exists (`GameState.NoRoomAfterEating`), and the program's loop would never end (`FoodSpawn.FullBoardNeverSpawns`). The model does not say what happens then; `GameState.UpdateWithSearch` reports it as `None`.
