/** A single cell of the grid: its position, its category (the colour the
    program paints it) and the Manhattan heuristic between two positions. */
module Cells {

  /** The colour field of a node; the program reads it as the node's role.
      Every colour constant is distinct, so each role is one constructor. */
  datatype Category =
    | Empty   // WHITE: not yet explored
    | Start   // ORANGE
    | End     // TURQUOISE
    | Wall    // BLACK
    | Open    // GREEN: queued for expansion
    | Closed  // RED: expanded
    | Path    // PURPLE: on the traced path

  /** A node is identified by its grid position, the pair that
      `get_position` returns. */
  datatype Pos = Pos(row: int, col: int)

  function Abs(x: int): nat {
    if x < 0 then -x else x
  }

  /** `heuristic(A, B)`: the Manhattan distance between two positions. */
  function Heuristic(a: Pos, b: Pos): nat {
    Abs(a.row - b.row) + Abs(a.col - b.col)
  }

  lemma HeuristicSymmetric(a: Pos, b: Pos)
    ensures Heuristic(a, b) == Heuristic(b, a)
  {
  }

  lemma HeuristicZeroIff(a: Pos, b: Pos)
    ensures Heuristic(a, b) == 0 <==> a == b
  {
  }

  lemma HeuristicTriangle(a: Pos, b: Pos, c: Pos)
    ensures Heuristic(a, c) <= Heuristic(a, b) + Heuristic(b, c)
  {
  }

  /** Consistency: one grid step changes the estimate to a fixed goal by at
      most one. */
  lemma HeuristicConsistent(a: Pos, b: Pos, goal: Pos)
    requires Heuristic(a, b) == 1
    ensures Heuristic(a, goal) <= Heuristic(b, goal) + 1
    ensures Heuristic(b, goal) <= Heuristic(a, goal) + 1
  {
  }

  /** Consecutive positions of `w` are one grid step apart. */
  ghost predicate UnitSteps(w: seq<Pos>) {
    forall i :: 0 <= i < |w| - 1 ==> Heuristic(w[i], w[i + 1]) == 1
  }

  /** Admissibility: the estimate never exceeds the number of unit steps of
      any walk between the two positions. */
  lemma {:induction false} HeuristicAdmissible(w: seq<Pos>)
    requires |w| >= 1 && UnitSteps(w)
    ensures Heuristic(w[0], w[|w| - 1]) <= |w| - 1
  {
    if |w| > 1 {
      HeuristicAdmissible(w[1..]);
      HeuristicTriangle(w[0], w[1], w[|w| - 1]);
    }
  }
}
