/** The direction-key guard of the frame loop: each pressed arrow key turns the
    snake unless it points straight back, and restarts a stopped game. */
module KeyGuard {
  import opened Grid
  import opened SnakeBody
  import opened GameState

  datatype Key = Up | Down | Left | Right

  /** What the guard writes: the snake's direction and the running flag. */
  datatype Steering = Steering(direction: Vec, running: bool)

  /** The direction an arrow key asks for (screen y grows downwards). */
  function Heading(k: Key): (d: Vec)
    ensures IsUnit(d)
    ensures k == Up || k == Down <==> d.x == 0
  {
    match k
    case Up => Vec(0, -1)
    case Down => Vec(0, 1)
    case Left => Vec(-1, 0)
    case Right => Vec(1, 0)
  }

  /** The guard's own test, one coordinate of the current direction per key. */
  predicate Admits(k: Key, direction: Vec) {
    match k
    case Up => direction.y != 1
    case Down => direction.y != -1
    case Left => direction.x != 1
    case Right => direction.x != -1
  }

  /** On a unit direction the one-coordinate test refuses exactly the key that
      points straight back. */
  lemma AdmitsIffNotReverse(k: Key, direction: Vec)
    requires IsUnit(direction)
    ensures Admits(k, direction) <==> Heading(k) != Neg(direction)
  {
  }

  /** One key branch of the guard. */
  function PressKey(pressed: bool, k: Key, s: Steering): (r: Steering)
    ensures !pressed ==> r == s
    ensures IsUnit(s.direction) ==> IsUnit(r.direction) && r.direction != Neg(s.direction)
    ensures pressed && IsUnit(s.direction) && Heading(k) != Neg(s.direction)
        ==> r == Steering(Heading(k), true)
    ensures pressed && IsUnit(s.direction) && Heading(k) == Neg(s.direction) ==> r == s
    ensures r.running ==> s.running || pressed
  {
    if pressed && Admits(k, s.direction) then Steering(Heading(k), true) else s
  }

  /** The four branches in the order the frame loop runs them. */
  function ApplyKeys(up: bool, down: bool, left: bool, right: bool, s: Steering): Steering {
    PressKey(right, Right, PressKey(left, Left, PressKey(down, Down, PressKey(up, Up, s))))
  }

  /** The direction stays a unit vector, and only a pressed key restarts. */
  lemma ApplyKeysKeepsUnit(up: bool, down: bool, left: bool, right: bool, s: Steering)
    requires IsUnit(s.direction)
    ensures IsUnit(ApplyKeys(up, down, left, right, s).direction)
    ensures ApplyKeys(up, down, left, right, s).running ==> s.running || up || down || left || right
  {
  }

  /** With at most one key pressed in a frame the snake never turns straight
      back. */
  lemma OneKeyNeverReverses(up: bool, down: bool, left: bool, right: bool, s: Steering)
    requires IsUnit(s.direction)
    requires (if up then 1 else 0) + (if down then 1 else 0)
           + (if left then 1 else 0) + (if right then 1 else 0) <= 1
    ensures ApplyKeys(up, down, left, right, s).direction != Neg(s.direction)
  {
    // Every key but the pressed one leaves the steering as it is.
    var k := if up then Up else if down then Down else if left then Left else Right;
    var pressed := up || down || left || right;
    assert ApplyKeys(up, down, left, right, s) == PressKey(pressed, k, s);
  }

  /** The guard is per key, not per frame: up then left, pressed together
      while moving right, end up moving left. */
  lemma TwoKeysCanReverse()
    ensures ApplyKeys(true, false, true, false, Steering(Vec(1, 0), true)).direction
         == Neg(Vec(1, 0))
  {
  }

  /** One key branch of the frame loop: a pressed key that is not opposite to
      the current direction sets that direction and restarts the game. */
  method PressDirectionKey(game: InitGame, pressed: bool, k: Key)
    modifies game.snake`direction, game`isRunning
    ensures Steering(game.snake.direction, game.isRunning)
         == PressKey(pressed, k, old(Steering(game.snake.direction, game.isRunning)))
  {
    if pressed && Admits(k, game.snake.direction) {
      game.snake.direction := Heading(k);
      game.isRunning := true;
    }
  }

  /** The key-handling block of the frame loop, run on the game state: the
      up, down, left and right branches in turn. */
  method HandleDirectionKeys(game: InitGame, up: bool, down: bool, left: bool, right: bool)
    requires game.Valid()
    modifies game.snake`direction, game`isRunning
    ensures game.Valid()
    ensures Steering(game.snake.direction, game.isRunning)
         == ApplyKeys(up, down, left, right, old(Steering(game.snake.direction, game.isRunning)))
  {
    ApplyKeysKeepsUnit(up, down, left, right, Steering(game.snake.direction, game.isRunning));
    PressDirectionKey(game, up, Up);
    PressDirectionKey(game, down, Down);
    PressDirectionKey(game, left, Left);
    PressDirectionKey(game, right, Right);
  }
}
