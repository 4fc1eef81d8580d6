# Snake game state, modelled in Dafny

This project models the game logic of a small raylib snake game (`src/main.cpp`). The game has the following parts:

- A snake lives on a 25 x 25 grid. Its body is a head-first deque of cells. It also has a direction and a pending-growth flag.
- One food item sits on a random cell off the body.
- The game (`InitGame`) holds the snake, the food, a running flag and the score.
- Each tick moves the snake and then runs three checks, in this order:
  1. Eating: the food moves, growth becomes pending, and the score gains 5.
  2. Edge check: a head coordinate of -1 or 25 ends the game.
  3. Tail check: a head on its own body ends the game.
- Game over resets the snake, moves the food, stops the game and clears the score.
- The frame loop applies the four arrow keys in turn. A key turns the snake unless it points straight back, and an accepted key restarts a stopped game.

Files and modules:

- `grid.dfy` (`Grid`): integer cells, the grid, unit directions and the edge test. It also proves by pigeonhole that a body shorter than 625 cells leaves a free cell.
- `deque.dfy` (`Deque`): `elementInDeque` as a loop with its invariant.
- `food.dfy` (`FoodPlacement`): the random source and the `Food` class, with `randomBlock` and the rejection loop `randomPosition`.
- `snake.dfy` (`SnakeBody`): the `Snake` class. The function `Step` specifies one move. Lemmas relate a step to the grid and to the food.
- `game.dfy` (`GameState`): the `InitGame` class. Its invariant `Valid` says:
  - the snake is at least 3 cells long, inside the grid, and has no repeated cell;
  - the food is off the body;
  - the score is a non-negative multiple of 5;
  - `|body| + (1 if growth is pending) == 3 + score / 5`.

  `Update` keeps this invariant. Its contract gives the whole new state in terms of the old one, except the cell the food moves to.
- `keys.dfy` (`KeyGuard`): the key-handling block of the frame loop, as `HandleDirectionKeys` on the game. The function `ApplyKeys` specifies it. The four branches share one condition shape, so each is run through a single branch method, `PressDirectionKey`.

The random source is a class `Random`. It holds a fixed stream of in-grid cells and a read position. Each cell stands for the pair of values that the two `GetRandomValue(0, 24)` calls of `randomBlock` return. The distribution is not modelled.

The rejection loop in `randomPosition` does not terminate when every cell is on the body. It is verified under two requirements:

- the stream is fair, meaning every in-grid cell recurs after every position (uniform draws have this with probability 1);
- some in-grid cell is off the body.

`CyclicStreamIsFair` shows that fair streams exist. `FreeCellExists` provides the free cell whenever the body is shorter than the grid.

## Model

| member | source | states |
|---|---|---|
| `Deque.ElementInDeque` | src/main.cpp:22-32 | the search returns true iff the element occurs in the deque |
| `FoodPlacement.Food.RandomBlock` | src/main.cpp:47-52 | returns the next cell of the random source, which is in the grid, and advances the source by one draw |
| `FoodPlacement.Food.RandomPosition` | src/main.cpp:54-63 | returns an in-grid cell off the body: the first draw not on the body, with every earlier draw of this call on the body; terminates for a fair source when a free cell exists |
| `FoodPlacement.Food.constructor` | src/main.cpp:38-41 | new food is placed off the given body |
| `FoodPlacement.CyclicStreamIsFair` | src/main.cpp:49-50 | the fairness asked of the random source can be met: the grid read row by row, repeated, is fair |
| `Grid.FreeCellExists` | src/main.cpp:54-63 | a body with fewer than 625 cells leaves an in-grid cell free, so the rejection loop has something to find |
| `Grid.DistinctFitsIn` | src/main.cpp:54-63 | pigeonhole: distinct cells that all occur in a sequence are no more than its length |
| `Grid.AllCells` | src/main.cpp:5-6 | the grid has exactly 625 distinct in-grid cells, and every in-grid cell is among them |
| `Grid.EdgeCheckExact` | src/main.cpp:137-147 | one unit step from an in-grid cell lands on an edge sentinel (-1 or 25) iff it leaves the grid |
| `SnakeBody.Step` | src/main.cpp:83-94 | a move gives a body one longer iff growth was pending, whose head is the old head plus the direction and whose rest is a prefix of the old body |
| `SnakeBody.Snake.MoveSnake` | src/main.cpp:83-94 | the body becomes `Step` of the old body, direction and flag; length grows by 1 iff growth was pending; the flag is cleared; the direction is kept |
| `SnakeBody.Snake.Reset` | src/main.cpp:96-100 | body `[(6,5),(5,5),(4,5)]`, direction `(1,0)`, growth flag untouched |
| `SnakeBody.Snake.constructor` | src/main.cpp:69-71 | the initial body and direction, no growth pending |
| `SnakeBody.StepKeepsOff` | src/main.cpp:83-94 | a cell off the old body that is not the new head is off the moved body |
| `SnakeBody.StepStaysInGrid` | src/main.cpp:137-147 | if the body was in the grid and the new head passes the edge test, the whole moved body is in the grid |
| `SnakeBody.StepKeepsDistinct` | src/main.cpp:83-94 | a step from a body without repeated cells, whose new head is not on the rest of the new body, gives a body without repeated cells |
| `SnakeBody.InitialBodyIsSafe` | src/main.cpp:96-100 | the reset body is in the grid with pairwise distinct cells, so the tail check does not fire on it |
| `SnakeBody.StepScenarios` | src/main.cpp:83-94 | from the initial body a plain step gives `[(7,5),(6,5),(5,5)]`; a growing step after it gives `[(8,5),(7,5),(6,5),(5,5)]` |
| `GameState.EatingNeverCollides` | src/main.cpp:127-157 | a step onto in-grid food that was off the body passes both the edge and the tail check |
| `GameState.ConsistentBounds` | src/main.cpp:109 | a consistent state has at most 625 body cells, so the score never exceeds 5 * 623 and the C++ `int` cannot overflow |
| `GameState.InitGame.constructor` | src/main.cpp:106-109 | a new game is running with score 0, the initial snake and food off it, and satisfies the invariant |
| `GameState.InitGame.Update` | src/main.cpp:116-125 | keeps the invariant. It changes nothing while stopped. While running it gives one of two outcomes. If the moved body hits an edge or itself: the game-over state with no growth pending. Otherwise: the moved body; growth pending and score +5 iff the head reached the food; food unchanged if it was not eaten |
| `GameState.InitGame.CheckFoodCollision` | src/main.cpp:127-135 | head on food: food moves off the body, growth becomes pending, score +5. Otherwise nothing changes |
| `GameState.InitGame.CheckEdgeCollision` | src/main.cpp:137-147 | the game ends exactly when the head's x or y is -1 or 25. Otherwise snake, food, flag, score and random source are unchanged |
| `GameState.InitGame.CheckTailCollision` | src/main.cpp:149-157 | the game ends exactly when the head occurs in the body behind it. Otherwise nothing changes |
| `GameState.InitGame.GameOver` | src/main.cpp:159-165 | initial body and direction, food off the body, game stopped, score 0, growth flag untouched |
| `KeyGuard.Heading` | src/main.cpp:182-204 | each arrow key asks for a unit direction; up and down are the vertical ones |
| `KeyGuard.AdmitsIffNotReverse` | src/main.cpp:182-204 | on a unit direction, each key's one-coordinate test refuses exactly the key that points straight back |
| `KeyGuard.PressKey` | src/main.cpp:182-186 | one key branch. An unpressed key changes nothing. A pressed key that is not opposite to the current direction sets its direction and restarts the game. A pressed key that is opposite changes nothing. It never reverses the direction, keeps it a unit vector, and only a pressed key sets the running flag |
| `KeyGuard.ApplyKeysKeepsUnit` | src/main.cpp:182-204 | after the four branches the direction is still a unit vector, and the game is running only if it was or some key was pressed |
| `KeyGuard.OneKeyNeverReverses` | src/main.cpp:182-204 | with at most one key pressed in a frame, the direction never becomes its own opposite |
| `KeyGuard.TwoKeysCanReverse` | src/main.cpp:182-204 | the guard works per key, not per frame: moving right, up and left pressed together leave the snake moving left |
| `KeyGuard.PressDirectionKey` | src/main.cpp:182-186 | one key branch run on the game: direction and running flag become `PressKey` of the key state and their old values |
| `KeyGuard.HandleDirectionKeys` | src/main.cpp:182-204 | direction and running flag become `ApplyKeys` of the key states and the old values, in the order up, down, left, right; the game invariant is kept |

## Left out

- Rendering and windowing (`draw` methods, `DrawRectangle`, `DrawText`, the window calls and the frame clear/present cycle): foreign library calls with no game logic.
- `slowDown`: it reads the clock and keeps a float timestamp. A tick is modelled as the caller choosing to call `Update`.
- Input polling (`IsKeyPressed`, `WindowShouldClose`): the four key states are parameters of `HandleDirectionKeys`.
- `GetRandomValue`: it is modelled only as a fixed stream of in-grid cells, with no distribution.
- Float coordinates and the epsilon comparison of `Vector2Equals`: the game only stores small integers in them, so cells are integer pairs compared exactly.
- `FoodPlacement.Food.RandomPosition`: does not model the non-termination of the redraw loop. It requires a fair random source and a free cell. Without those the loop in the source can spin forever.
- `GameState.InitGame.Update`: requires that the body plus any pending growth is shorter than 625 cells. The moved body is then shorter than the grid, so the eating branch always has a free cell for the food. The only consistent state this excludes is a 624-cell body with growth pending. There the move fills the grid; if that snake eats, the source's food placement spins forever, and otherwise the tick ends in game over.
- `GameState.InitGame.Update` does not state which free cell the food moves to when it is eaten or on game over. `FoodPlacement.Food.RandomPosition` states that cell in terms of the random stream.
- `score` is a C++ `int`, but wrap-around is not modelled. It cannot happen: `ConsistentBounds` proves the score stays at or below 5 * 623.
