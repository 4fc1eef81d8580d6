/** The game state (`InitGame`): one snake, one food item, the running flag and
    the score, and the per-tick update with its three collision checks. */
module GameState {
  import opened Grid
  import opened Deque
  import opened FoodPlacement
  import opened SnakeBody

  /** Points for one food item. */
  const ScorePerFood: int := 5

  /** A moved body ends the game: its head is on an edge sentinel or on
      another cell of the body. */
  predicate Collides(moved: seq<Vec>)
    requires moved != []
  {
    HitsEdge(moved[0]) || moved[0] in moved[1..]
  }

  /** A step onto the food never collides: the food is in the grid and was not
      on the old body, which is all the rest of the new body comes from. */
  lemma EatingNeverCollides(body: seq<Vec>, direction: Vec, grow: bool, food: Vec)
    requires body != [] && InGrid(food) && food !in body
    requires Add(body[0], direction) == food
    ensures !Collides(Step(body, direction, grow))
  {
    var moved := Step(body, direction, grow);
    forall i | 0 <= i < |moved| - 1
      ensures moved[1..][i] != food
    {
      assert moved[1..][i] == body[i];
    }
  }

  /** The snake is inside the grid with no cell repeated, the food is off the body, the score is a
      non-negative multiple of five, and every five points are one cell of
      growth, already made or pending. */
  predicate Consistent(body: seq<Vec>, grow: bool, food: Vec, score: int) {
    && AllInGrid(body) && Distinct(body)
    && food !in body
    && 0 <= score && score % ScorePerFood == 0
    && |body| + (if grow then 1 else 0) == |InitialBody| + score / ScorePerFood
  }

  /** A consistent state bounds the snake by the grid and so bounds the score:
      it never exceeds five points per grid cell beyond the initial three. */
  lemma ConsistentBounds(body: seq<Vec>, grow: bool, food: Vec, score: int)
    requires Consistent(body, grow, food, score)
    ensures |body| <= CellCount
    ensures score <= ScorePerFood * (CellCount - |InitialBody| + 1)
  {
    var cells := AllCells();
    forall i | 0 <= i < |body|
      ensures body[i] in cells
    {
      assert cells[body[i].y * BlockCount + body[i].x] == body[i];
    }
    DistinctFitsIn(body, cells);
  }

  class InitGame {
    const snake: Snake
    const food: Food
    var isRunning: bool
    var score: int

    /** The snake is well formed and the game state is consistent. */
    ghost predicate Valid()
      reads this, snake, food
    {
      snake.Valid() && Consistent(snake.body, snake.grow, food.position, score)
    }

    /** The state `gameOver` leaves, apart from the untouched growth flag. */
    ghost predicate IsGameOver()
      reads this, snake, food
    {
      && snake.body == InitialBody && snake.direction == InitialDirection
      && food.position !in snake.body
      && !isRunning && score == 0
    }

    constructor (rng: Random)
      requires rng.Fair()
      modifies rng`next
      ensures Valid()
      ensures snake.body == InitialBody && snake.direction == InitialDirection && !snake.grow
      ensures isRunning && score == 0
    {
      var s := new Snake();
      assert Vec(0, 0) !in s.body;
      var f := new Food(s.body, rng);
      snake := s;
      food := f;
      isRunning := true;
      score := 0;
    }

    /** One tick: nothing while stopped; otherwise move, then the food, edge
        and tail checks, in that order. */
    method Update(rng: Random)
      requires Valid() && rng.Fair()
      requires |snake.body| + (if snake.grow then 1 else 0) < CellCount
      modifies this, snake, food, rng
      ensures Valid()
      ensures !old(isRunning) ==> unchanged(this, snake, food) && rng.next == old(rng.next)
      ensures old(isRunning) ==>
        var moved := Step(old(snake.body), old(snake.direction), old(snake.grow));
        if Collides(moved) then
          IsGameOver() && !snake.grow
        else
          var ate := moved[0] == old(food.position);
          && snake.body == moved && snake.direction == old(snake.direction)
          && isRunning && snake.grow == ate
          && score == old(score) + (if ate then ScorePerFood else 0)
          && (!ate ==> food.position == old(food.position))
    {
      if isRunning {
        ghost var body, direction, grow := snake.body, snake.direction, snake.grow;
        ghost var oldFood := food.position;
        ghost var moved := Step(body, direction, grow);
        ghost var ate := moved[0] == oldFood;
        snake.MoveSnake();
        CheckFoodCollision(rng);
        if ate {
          EatingNeverCollides(body, direction, grow, oldFood);
        } else {
          StepKeepsOff(body, direction, grow, oldFood);
        }
        if !HitsEdge(moved[0]) {
          StepStaysInGrid(body, direction, grow);
        }
        if moved[0] !in moved[1..] {
          StepKeepsDistinct(body, direction, grow);
        }
        CheckEdgeCollision(rng);
        InitialBodyIsSafe();
        CheckTailCollision(rng);
      }
    }

    /** `checkFoodCollision`: when the head is on the food, the food moves to a
        cell off the body, growth becomes pending and the score gains five. */
    method CheckFoodCollision(rng: Random)
      requires snake.Valid() && rng.Fair()
      requires |snake.body| < CellCount
      modifies food`position, snake`grow, this`score, rng`next
      ensures snake.Valid()
      ensures if old(snake.body[0] == food.position) then
          food.position !in snake.body && snake.grow && score == old(score) + ScorePerFood
        else
          food.position == old(food.position) && snake.grow == old(snake.grow)
          && score == old(score) && rng.next == old(rng.next)
    {
      if snake.body[0] == food.position {
        FreeCellExists(snake.body);
        food.position := Food.RandomPosition(snake.body, rng);
        snake.grow := true;
        score := score + ScorePerFood;
      }
    }

    /** `checkEdgeCollision`: the game ends exactly when the head's x or y is
        -1 or BlockCount. */
    method CheckEdgeCollision(rng: Random)
      requires snake.Valid() && rng.Fair()
      modifies snake, food`position, this`isRunning, this`score, rng`next
      ensures snake.Valid()
      ensures snake.grow == old(snake.grow)
      ensures if HitsEdge(old(snake.body[0])) then IsGameOver()
        else
          && unchanged(snake) && food.position == old(food.position)
          && isRunning == old(isRunning) && score == old(score) && rng.next == old(rng.next)
    {
      if snake.body[0].x == BlockCount || snake.body[0].x == -1 {
        GameOver(rng);
      }
      if snake.body[0].y == BlockCount || snake.body[0].y == -1 {
        GameOver(rng);
      }
    }

    /** `checkTailCollision`: the game ends exactly when the head is on a cell
        of the body behind it. */
    method CheckTailCollision(rng: Random)
      requires snake.Valid() && rng.Fair()
      modifies snake, food`position, this`isRunning, this`score, rng`next
      ensures snake.Valid()
      ensures snake.grow == old(snake.grow)
      ensures if old(snake.body[0] in snake.body[1..]) then IsGameOver()
        else
          && unchanged(snake) && food.position == old(food.position)
          && isRunning == old(isRunning) && score == old(score) && rng.next == old(rng.next)
    {
      var headlessBody := snake.body[1..];
      var hit := ElementInDeque(snake.body[0], headlessBody);
      if hit {
        GameOver(rng);
      }
    }

    /** `gameOver`: reset the snake, move the food off the reset body, stop
        the game and clear the score. */
    method GameOver(rng: Random)
      requires rng.Fair()
      modifies snake, food`position, this`isRunning, this`score, rng`next
      ensures snake.Valid() && IsGameOver()
      ensures snake.grow == old(snake.grow)
    {
      snake.Reset();
      assert Vec(0, 0) !in snake.body;
      food.position := Food.RandomPosition(snake.body, rng);
      isRunning := false;
      score := 0;
    }
  }
}
