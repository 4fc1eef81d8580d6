/** The snake: a head-first body, a direction and the pending-growth flag. */
module SnakeBody {
  import opened Grid

  const InitialBody: seq<Vec> := [Vec(6, 5), Vec(5, 5), Vec(4, 5)]
  const InitialDirection: Vec := Vec(1, 0)

  /** The body after one move: the new head one step along `direction`,
      followed by the old body read from its head, keeping the old tail only
      when growth is pending. */
  function Step(body: seq<Vec>, direction: Vec, grow: bool): (r: seq<Vec>)
    requires body != []
    ensures |r| == |body| + (if grow then 1 else 0)
    ensures r[0] == Add(body[0], direction)
    ensures r[1..] <= body
  {
    var pushed := [Add(body[0], direction)] + body;
    if grow then pushed else pushed[..|pushed| - 1]
  }

  /** A cell off the body that is not the new head stays off the body. */
  lemma StepKeepsOff(body: seq<Vec>, direction: Vec, grow: bool, p: Vec)
    requires body != [] && p !in body
    requires p != Add(body[0], direction)
    ensures p !in Step(body, direction, grow)
  {
    var r := Step(body, direction, grow);
    forall i | 1 <= i < |r|
      ensures r[i] != p
    {
      assert r[i] == r[1..][i - 1] == body[i - 1];
    }
  }

  /** If the body was in the grid and the new head passes the edge test, the
      whole new body is in the grid. */
  lemma StepStaysInGrid(body: seq<Vec>, direction: Vec, grow: bool)
    requires body != [] && AllInGrid(body) && IsUnit(direction)
    requires !HitsEdge(Add(body[0], direction))
    ensures AllInGrid(Step(body, direction, grow))
  {
    var r := Step(body, direction, grow);
    EdgeCheckExact(body[0], direction);
    forall i | 1 <= i < |r|
      ensures InGrid(r[i])
    {
      assert r[i] == r[1..][i - 1] == body[i - 1];
    }
  }

  /** A step whose new head is not on the rest of the new body keeps a body
      without repeated cells free of repeats. */
  lemma StepKeepsDistinct(body: seq<Vec>, direction: Vec, grow: bool)
    requires body != [] && Distinct(body)
    requires Step(body, direction, grow)[0] !in Step(body, direction, grow)[1..]
    ensures Distinct(Step(body, direction, grow))
  {
    var r := Step(body, direction, grow);
    forall i, j | 0 <= i < j < |r|
      ensures r[i] != r[j]
    {
      assert r[j] == r[1..][j - 1] == body[j - 1];
      if i > 0 {
        assert r[i] == r[1..][i - 1] == body[i - 1];
      }
    }
  }

  /** The reset body is in the grid and has no repeated cell, so the
      self-collision test does not fire on it. */
  lemma InitialBodyIsSafe()
    ensures AllInGrid(InitialBody) && Distinct(InitialBody)
    ensures InitialBody[0] !in InitialBody[1..]
  {
  }

  /** A plain step from the initial body, and a growing step after it. */
  lemma StepScenarios()
    ensures Step(InitialBody, InitialDirection, false) == [Vec(7, 5), Vec(6, 5), Vec(5, 5)]
    ensures Step([Vec(7, 5), Vec(6, 5), Vec(5, 5)], InitialDirection, true)
         == [Vec(8, 5), Vec(7, 5), Vec(6, 5), Vec(5, 5)]
  {
  }

  class Snake {
    var direction: Vec
    var body: seq<Vec>
    var grow: bool

    /** The body never has fewer than the three initial cells and the
        direction is a unit vector. */
    ghost predicate Valid()
      reads this
    {
      |body| >= |InitialBody| && IsUnit(direction)
    }

    constructor ()
      ensures Valid()
      ensures body == InitialBody && direction == InitialDirection && !grow
    {
      direction := InitialDirection;
      body := InitialBody;
      grow := false;
    }

    /** `moveSnake`: push the new head on the front, then either consume the
        pending growth or pop the tail. */
    method MoveSnake()
      requires Valid()
      modifies this
      ensures Valid()
      ensures body == Step(old(body), old(direction), old(grow))
      ensures |body| == old(|body|) + (if old(grow) then 1 else 0)
      ensures direction == old(direction) && !grow
    {
      body := [Add(body[0], direction)] + body;
      if grow {
        grow := false;
      } else {
        body := body[..|body| - 1];
      }
    }

    /** `reset`: the initial body and direction; pending growth is left alone. */
    method Reset()
      modifies this
      ensures Valid()
      ensures body == InitialBody && direction == InitialDirection
      ensures grow == old(grow)
    {
      body := InitialBody;
      direction := InitialDirection;
    }
  }
}
