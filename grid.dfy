/** Geometry of the play field: integer cells, the 25 x 25 grid, unit directions,
    and the fact that a short enough body always leaves a free cell. */
module Grid {

  /** A grid cell or a direction. The game keeps both in a float vector that
      only ever holds small integers, so exact integer equality stands in for
      the epsilon comparison. */
  datatype Vec = Vec(x: int, y: int)

  /** Cells along each side of the play field (`blockCount`). */
  const BlockCount: int := 25

  /** Number of cells of the play field. */
  const CellCount: int := BlockCount * BlockCount

  predicate InGrid(c: Vec) {
    0 <= c.x < BlockCount && 0 <= c.y < BlockCount
  }

  /** A cell the random source can produce. */
  type GridCell = c: Vec | InGrid(c) witness Vec(0, 0)

  function Add(a: Vec, b: Vec): Vec {
    Vec(a.x + b.x, a.y + b.y)
  }

  function Neg(a: Vec): Vec {
    Vec(-a.x, -a.y)
  }

  /** The four directions the snake can travel in. */
  predicate IsUnit(d: Vec) {
    d == Vec(1, 0) || d == Vec(-1, 0) || d == Vec(0, 1) || d == Vec(0, -1)
  }

  /** The edge test of the game: a coordinate equal to -1 or to BlockCount. */
  predicate HitsEdge(h: Vec) {
    h.x == BlockCount || h.x == -1 || h.y == BlockCount || h.y == -1
  }

  predicate AllInGrid(cells: seq<Vec>) {
    forall i :: 0 <= i < |cells| ==> InGrid(cells[i])
  }

  predicate Distinct(cells: seq<Vec>) {
    forall i, j :: 0 <= i < j < |cells| ==> cells[i] != cells[j]
  }

  /** The edge test is exact for one step of a unit direction from an in-grid
      cell: the new head hits an edge sentinel iff it has left the grid. */
  lemma EdgeCheckExact(head: Vec, d: Vec)
    requires InGrid(head) && IsUnit(d)
    ensures HitsEdge(Add(head, d)) <==> !InGrid(Add(head, d))
  {
  }

  /** Pigeonhole: distinct cells that all occur in `t` are no more than `t`. */
  lemma {:induction false} DistinctFitsIn(s: seq<Vec>, t: seq<Vec>)
    requires Distinct(s)
    requires forall i :: 0 <= i < |s| ==> s[i] in t
    ensures |s| <= |t|
    decreases |s|
  {
    if |s| > 0 {
      var j :| 0 <= j < |t| && t[j] == s[0];
      var rest := t[..j] + t[j + 1..];
      forall i | 0 <= i < |s| - 1
        ensures s[1..][i] in rest
      {
        var k :| 0 <= k < |t| && t[k] == s[i + 1];
        assert k != j;
        if k < j {
          assert rest[k] == t[k];
        } else {
          assert rest[k - 1] == t[k];
        }
      }
      DistinctFitsIn(s[1..], rest);
    }
  }

  /** Every cell of the grid, row by row, each exactly once. */
  function AllCells(): (cells: seq<Vec>)
    ensures |cells| == CellCount
    ensures Distinct(cells)
    ensures AllInGrid(cells)
    ensures forall c :: InGrid(c) ==> cells[c.y * BlockCount + c.x] == c
  {
    seq(CellCount, i => Vec(i % BlockCount, i / BlockCount))
  }

  /** A body shorter than the number of cells leaves some in-grid cell free. */
  lemma FreeCellExists(body: seq<Vec>)
    requires |body| < CellCount
    ensures exists c :: InGrid(c) && c !in body
  {
    var cells := AllCells();
    if forall c :: InGrid(c) ==> c in body {
      DistinctFitsIn(cells, body);
      assert false;
    }
  }
}
