/**
 * Cells, search nodes, the move table and the Manhattan heuristic of alg.py.
 */
module Nodes {
  import opened Wrappers

  /** A grid cell `(row, col)`; cells are compared by value. */
  datatype Pos = Pos(row: int, col: int)

  /** The cell reached from `p` by the move vector `m`. */
  function Add(p: Pos, m: Pos): Pos {
    Pos(p.row + m.row, p.col + m.col)
  }

  /** The vector that leads from `p` to `q`. */
  function Diff(q: Pos, p: Pos): Pos {
    Pos(q.row - p.row, q.col - p.col)
  }

  /**
   * A search node. The parent link is the arena index of the node it was
   * expanded from. Two nodes are "equal" in the source when their positions
   * are equal; the model compares `pos` wherever the source uses `==` or `in`.
   */
  datatype Node = Node(pos: Pos, g: int, h: int, parent: Option<nat>) {
    /** The priority `f = g + h`, fixed when the node is created. */
    function F(): int {
      g + h
    }
  }

  /** The eight direction vectors, in the source's order: four orthogonal ones first. */
  const MOVES: seq<Pos> :=
    [Pos(0, 1), Pos(1, 0), Pos(0, -1), Pos(-1, 0), Pos(-1, -1), Pos(1, 1), Pos(-1, 1), Pos(1, -1)]

  function Abs(x: int): nat {
    if x < 0 then -x else x
  }

  predicate IsOrthogonalStep(m: Pos) {
    Abs(m.row) + Abs(m.col) == 1
  }

  predicate IsDiagonalStep(m: Pos) {
    Abs(m.row) == 1 && Abs(m.col) == 1
  }

  /**
   * The moves used by a search: all of MOVES when diagonal moves are on,
   * otherwise its first four entries. The result holds no vector twice and
   * holds exactly the unit steps allowed in that mode.
   */
  function MoveSet(diagonal: bool): (ms: seq<Pos>)
    ensures |ms| == if diagonal then 8 else 4
    ensures forall i, j :: 0 <= i < j < |ms| ==> ms[i] != ms[j]
    ensures forall m :: m in ms <==> IsOrthogonalStep(m) || (diagonal && IsDiagonalStep(m))
  {
    var ms := if diagonal then MOVES else MOVES[..4];
    assert MOVES[..4] == [Pos(0, 1), Pos(1, 0), Pos(0, -1), Pos(-1, 0)];
    forall m | IsOrthogonalStep(m) || IsDiagonalStep(m)
      ensures m in MOVES && (IsOrthogonalStep(m) ==> m in MOVES[..4])
    {
      UnitStepListed(m);
    }
    ms
  }

  /** Each unit step, orthogonal or diagonal, is one of MOVES; the orthogonal ones are its first four. */
  lemma UnitStepListed(m: Pos)
    requires IsOrthogonalStep(m) || IsDiagonalStep(m)
    ensures IsOrthogonalStep(m) ==> m in [Pos(0, 1), Pos(1, 0), Pos(0, -1), Pos(-1, 0)]
    ensures m in MOVES
  {
    assert -1 <= m.row <= 1 && -1 <= m.col <= 1;
    if m.row == 0 {
      assert m == Pos(0, 1) || m == Pos(0, -1);
    } else if m.col == 0 {
      assert m == Pos(1, 0) || m == Pos(-1, 0);
    } else {
      assert m == Pos(-1, -1) || m == Pos(1, 1) || m == Pos(-1, 1) || m == Pos(1, -1);
    }
  }

  /** Manhattan distance; it is zero exactly when the two cells coincide. */
  function Manhattan(a: Pos, b: Pos): (d: nat)
    ensures d == 0 <==> a == b
  {
    Abs(a.row - b.row) + Abs(a.col - b.col)
  }

  lemma ManhattanSymmetric(a: Pos, b: Pos)
    ensures Manhattan(a, b) == Manhattan(b, a)
  {
  }

  /** Row `r` of a grid has as many cells as row 0. */
  predicate Rectangular(cells: seq<seq<int>>) {
    forall r :: 0 <= r < |cells| ==> |cells[r]| == |cells[0]|
  }

  /** An occupancy grid: rows of cell values, 0 meaning walkable. */
  type Grid = cells: seq<seq<int>> | Rectangular(cells)

  /** The bounds check of the source: the row against the number of rows, the column against row 0. */
  predicate InBounds(grid: Grid, p: Pos) {
    0 <= p.row < |grid| && 0 <= p.col < |grid[0]|
  }

  /** A cell inside the grid whose value is 0. */
  predicate Passable(grid: Grid, p: Pos) {
    InBounds(grid, p) && grid[p.row][p.col] == 0
  }
}
