/** The random source and the food item placed by rejection sampling. */
module FoodPlacement {
  import opened Grid
  import opened Deque

  /** Cell `c` is drawn at or after position `n`. */
  ghost predicate Recurs(draws: nat -> GridCell, c: Vec, n: nat) {
    exists k: nat :: n <= k && draws(k) == c
  }

  /** Every in-grid cell keeps recurring in the stream. */
  ghost predicate FairStream(draws: nat -> GridCell) {
    forall c: GridCell, n: nat :: Recurs(draws, c, n)
  }

  /** Position `n * CellCount + i` of a repeated grid of CellCount cells is
      position `i` of the grid. */
  lemma {:induction false} RepeatIndex(n: nat, i: nat)
    requires i < CellCount
    ensures (n * CellCount + i) % CellCount == i
  {
    if n > 0 {
      RepeatIndex(n - 1, i);
      assert n * CellCount + i == ((n - 1) * CellCount + i) + CellCount;
    }
  }

  /** The grid read row by row, over and over. */
  function Cyclic(n: nat): GridCell {
    var cells := AllCells();
    assert InGrid(cells[n % CellCount]);
    cells[n % CellCount]
  }

  /** Fair streams exist: the cyclic one is fair. */
  lemma CyclicStreamIsFair()
    ensures FairStream(Cyclic)
  {
    forall c: GridCell, n: nat
      ensures Recurs(Cyclic, c, n)
    {
      var index := c.y * BlockCount + c.x;
      RepeatIndex(n, index);
      assert Cyclic(n * CellCount + index) == c;
    }
  }

  /** The game's random source: the stream of cells that successive pairs of
      `GetRandomValue(0, blockCount - 1)` calls produce, and how far it has been
      read. Its distribution is not modelled; `Fair` asks only that every
      in-grid cell keeps recurring, which uniform draws do with probability 1. */
  class Random {
    const draws: nat -> GridCell
    var next: nat

    /** How a caller builds a source: from the stream it will read, starting
        at its first draw. */
    constructor (draws: nat -> GridCell)
      ensures this.draws == draws && next == 0
    {
      this.draws := draws;
      next := 0;
    }

    ghost predicate Fair() {
      FairStream(draws)
    }
  }

  class Food {
    var position: GridCell

    /** Food is placed on a random cell off the given snake body. */
    constructor (snakeBody: seq<Vec>, rng: Random)
      requires rng.Fair()
      requires exists c :: InGrid(c) && c !in snakeBody
      modifies rng`next
      ensures position !in snakeBody
      ensures old(rng.next) < rng.next
    {
      var p := RandomPosition(snakeBody, rng);
      position := p;
    }

    /** One in-grid cell from the random source (`randomBlock`). */
    static method RandomBlock(rng: Random) returns (c: GridCell)
      modifies rng`next
      ensures c == rng.draws(old(rng.next))
      ensures rng.next == old(rng.next) + 1
    {
      c := rng.draws(rng.next);
      rng.next := rng.next + 1;
    }

    /** Rejection sampling (`randomPosition`): the first drawn cell that is not
        on `snakeBody`. Every draw before it was on the body. */
    static method RandomPosition(snakeBody: seq<Vec>, rng: Random) returns (p: GridCell)
      requires rng.Fair()
      requires exists c :: InGrid(c) && c !in snakeBody
      modifies rng`next
      ensures p !in snakeBody
      ensures old(rng.next) < rng.next && p == rng.draws(rng.next - 1)
      ensures forall k :: old(rng.next) <= k < rng.next - 1 ==> rng.draws(k) in snakeBody
    {
      // A free cell, and the first position at which the stream yields it again,
      // bound the number of redraws.
      ghost var free :| InGrid(free) && free !in snakeBody;
      assert Recurs(rng.draws, free, rng.next);
      ghost var due: nat :| rng.next <= due && rng.draws(due) == free;
      p := RandomBlock(rng);
      var taken := ElementInDeque(p, snakeBody);
      while taken
        invariant old(rng.next) < rng.next <= due + 1
        invariant p == rng.draws(rng.next - 1)
        invariant taken <==> p in snakeBody
        invariant forall k :: old(rng.next) <= k < rng.next - 1 ==> rng.draws(k) in snakeBody
        decreases due + 1 - rng.next
      {
        p := RandomBlock(rng);
        taken := ElementInDeque(p, snakeBody);
      }
    }
  }
}
