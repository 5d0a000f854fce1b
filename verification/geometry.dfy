/** Cell coordinates, orthogonal adjacency and the Manhattan heuristic of the
    path-finding visualizer. A cell is identified by its row and column. */
module Geometry {

  datatype Coord = Coord(row: int, col: int)

  function Abs(x: int): nat { if x < 0 then -x else x }

  /** `heuristic(nodeA, nodeB)`: |Δcol| + |Δrow|. */
  function Heuristic(a: Coord, b: Coord): (h: nat)
    ensures h == 0 <==> a == b
  {
    Abs(a.col - b.col) + Abs(a.row - b.row)
  }

  /** Two cells are neighbours on the 4-connected grid exactly when they are
      at Manhattan distance 1 (up, down, left or right). */
  predicate Adjacent(a: Coord, b: Coord) {
    Heuristic(a, b) == 1
  }

  lemma HeuristicSymmetric(a: Coord, b: Coord)
    ensures Heuristic(a, b) == Heuristic(b, a)
  {
  }

  /** The heuristic is consistent: one step changes it by at most 1. */
  lemma HeuristicStep(a: Coord, b: Coord, t: Coord)
    requires Adjacent(a, b)
    ensures Heuristic(a, t) <= Heuristic(b, t) + 1
    ensures Heuristic(b, t) <= Heuristic(a, t) + 1
  {
  }

  /** The four orthogonal moves are the only adjacent cells. */
  lemma AdjacentCases(a: Coord, b: Coord)
    requires Adjacent(a, b)
    ensures b == Coord(a.row - 1, a.col) || b == Coord(a.row + 1, a.col)
         || b == Coord(a.row, a.col - 1) || b == Coord(a.row, a.col + 1)
  {
  }
}
