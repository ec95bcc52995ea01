/** The square grid of nodes: the colour and the neighbour list of every
    node, the grid's construction and the adjacency computation. */
module Grids {
  import opened Cells

  class Grid {
    /** `total_rows`: the grid has `rows` rows of `rows` nodes. */
    const rows: nat
    /** The `color` field of the node at each position. */
    const colors: array2<Category>
    /** The `neighbors` field of the node at each position. */
    const neighbors: array2<seq<Pos>>

    predicate Valid() {
      && colors.Length0 == rows && colors.Length1 == rows
      && neighbors.Length0 == rows && neighbors.Length1 == rows
    }

    predicate InBounds(p: Pos) {
      0 <= p.row < rows && 0 <= p.col < rows
    }

    /** Every position of the grid. */
    ghost function AllCells(): set<Pos> {
      set r, c | 0 <= r < rows && 0 <= c < rows :: Pos(r, c)
    }

    function Color(p: Pos): Category
      requires Valid() && InBounds(p)
      reads colors
    {
      colors[p.row, p.col]
    }

    /** The stored neighbour list of the node at `p` (none outside the grid). */
    function Nbrs(p: Pos): seq<Pos>
      reads neighbors
    {
      if Valid() && InBounds(p) then neighbors[p.row, p.col] else []
    }

    /** `generate_grid(rows, width)`: `rows` rows of `rows` white nodes with
        empty neighbour lists. The pixel width only feeds the drawing
        geometry; `width // rows` makes `rows == 0` an error in the source. */
    constructor (rows: nat)
      requires rows > 0
      ensures Valid() && this.rows == rows
      ensures fresh(colors) && fresh(neighbors)
      ensures forall r, c :: 0 <= r < rows && 0 <= c < rows ==> colors[r, c] == Empty
      ensures forall r, c :: 0 <= r < rows && 0 <= c < rows ==> neighbors[r, c] == []
    {
      var cs := new Category[rows, rows];
      var ns := new seq<Pos>[rows, rows];
      for i := 0 to rows
        invariant forall r, c :: 0 <= r < i && 0 <= c < rows ==> cs[r, c] == Empty && ns[r, c] == []
      {
        for j := 0 to rows
          invariant forall r, c :: 0 <= r < i && 0 <= c < rows ==> cs[r, c] == Empty && ns[r, c] == []
          invariant forall c :: 0 <= c < j ==> cs[i, c] == Empty && ns[i, c] == []
        {
          cs[i, j] := Empty;
          ns[i, j] := [];
        }
      }
      this.rows := rows;
      colors := cs;
      neighbors := ns;
    }

    /** `reset` and the `make_*` mutators: paint one node, leave the rest. */
    method SetColor(p: Pos, k: Category)
      requires Valid() && InBounds(p)
      modifies colors
      ensures forall r, c :: 0 <= r < rows && 0 <= c < rows ==>
        colors[r, c] == if Pos(r, c) == p then k else old(colors[r, c])
    {
      colors[p.row, p.col] := k;
    }

    /** The positions one step down, up, right and left of `p`, in the order
        `update_adjacent_nodes` examines them. */
    static function Candidates(p: Pos): seq<Pos> {
      [Pos(p.row + 1, p.col), Pos(p.row - 1, p.col), Pos(p.row, p.col + 1), Pos(p.row, p.col - 1)]
    }

    /** The members of `cands` that lie in the grid and are not walls, in order. */
    function Passable(cands: seq<Pos>): seq<Pos>
      requires Valid()
      reads colors
    {
      if cands == [] then []
      else
        (if InBounds(cands[0]) && !Color(cands[0]).Wall? then [cands[0]] else [])
        + Passable(cands[1..])
    }

    /** The neighbour list that `update_adjacent_nodes` computes for `p`. */
    function AdjacentNodes(p: Pos): seq<Pos>
      requires Valid()
      reads colors
    {
      Passable(Candidates(p))
    }

    /** `Passable` over the four candidates, one candidate at a time. */
    lemma PassableCandidates(p: Pos)
      requires Valid()
      ensures AdjacentNodes(p) ==
        Passable([Candidates(p)[0]]) + Passable([Candidates(p)[1]])
        + Passable([Candidates(p)[2]]) + Passable([Candidates(p)[3]])
    {
      var cs := Candidates(p);
      PassableSingle();
      assert cs[1..][1..][1..][1..] == [];
      assert Passable(cs[1..][1..][1..]) == Passable([cs[3]]);
      assert Passable(cs[1..][1..]) == Passable([cs[2]]) + Passable([cs[3]]);
      assert Passable(cs[1..]) == Passable([cs[1]]) + Passable([cs[2]]) + Passable([cs[3]]);
    }

    lemma PassableSingle()
      requires Valid()
      ensures forall x: Pos :: Passable([x]) == (if InBounds(x) && !Color(x).Wall? then [x] else [])
    {
      forall x: Pos ensures Passable([x]) == (if InBounds(x) && !Color(x).Wall? then [x] else []) {
        assert [x][1..] == [];
      }
    }

    /** `update_adjacent_nodes`: rebuild the neighbour list of the node at
        `p` from the current colours. */
    method UpdateAdjacentNodes(p: Pos)
      requires Valid() && InBounds(p)
      modifies neighbors
      ensures neighbors[p.row, p.col] == AdjacentNodes(p)
      ensures forall r, c :: 0 <= r < rows && 0 <= c < rows && Pos(r, c) != p ==>
        neighbors[r, c] == old(neighbors[r, c])
    {
      var cands := Candidates(p);
      PassableCandidates(p);
      var result: seq<Pos> := [];
      if p.row < rows - 1 && !colors[p.row + 1, p.col].Wall? {  // down
        result := result + [Pos(p.row + 1, p.col)];
      }
      assert result == Passable([cands[0]]);
      if p.row > 0 && !colors[p.row - 1, p.col].Wall? {  // up
        result := result + [Pos(p.row - 1, p.col)];
      }
      assert result == Passable([cands[0]]) + Passable([cands[1]]);
      if p.col < rows - 1 && !colors[p.row, p.col + 1].Wall? {  // right
        result := result + [Pos(p.row, p.col + 1)];
      }
      assert result == Passable([cands[0]]) + Passable([cands[1]]) + Passable([cands[2]]);
      if p.col > 0 && !colors[p.row, p.col - 1].Wall? {  // left
        result := result + [Pos(p.row, p.col - 1)];
      }
      assert result == AdjacentNodes(p);
      neighbors[p.row, p.col] := result;
    }

    /** Every stored neighbour is a grid position one step away. */
    ghost predicate NeighboursWellFormed()
      reads neighbors
    {
      forall p {:trigger Nbrs(p)} :: InBounds(p) ==> forall q :: q in Nbrs(p) ==> InBounds(q) && Heuristic(p, q) == 1
    }

    /** The driver's double loop over the grid before a search: refresh
        every node's neighbour list. */
    method RecomputeAdjacency()
      requires Valid()
      modifies neighbors
      ensures forall r, c :: 0 <= r < rows && 0 <= c < rows ==> neighbors[r, c] == AdjacentNodes(Pos(r, c))
      ensures NeighboursWellFormed()
    {
      for i := 0 to rows
        invariant forall r, c :: 0 <= r < i && 0 <= c < rows ==> neighbors[r, c] == AdjacentNodes(Pos(r, c))
      {
        UpdateRow(i);
      }
      forall p | InBounds(p)
        ensures forall q :: q in Nbrs(p) ==> InBounds(q) && Heuristic(p, q) == 1
      {
        assert Nbrs(p) == AdjacentNodes(p);
        AdjacentShape(this, p);
      }
    }

    /** The inner loop of that double loop: refresh row `i`. */
    method UpdateRow(i: nat)
      requires Valid() && i < rows
      modifies neighbors
      ensures forall c :: 0 <= c < rows ==> neighbors[i, c] == AdjacentNodes(Pos(i, c))
      ensures forall r, c :: 0 <= r < rows && 0 <= c < rows && r != i ==> neighbors[r, c] == old(neighbors[r, c])
    {
      for j := 0 to rows
        invariant forall c :: 0 <= c < j ==> neighbors[i, c] == AdjacentNodes(Pos(i, c))
        invariant forall r, c :: 0 <= r < rows && 0 <= c < rows && r != i ==> neighbors[r, c] == old(neighbors[r, c])
      {
        UpdateAdjacentNodes(Pos(i, j));
      }
    }
  }

  /** Which of the four directions, in checking order, leads from `p` to `q`
      (4 when `q` is not one step away). */
  function Direction(p: Pos, q: Pos): nat {
    if q == Pos(p.row + 1, p.col) then 0
    else if q == Pos(p.row - 1, p.col) then 1
    else if q == Pos(p.row, p.col + 1) then 2
    else if q == Pos(p.row, p.col - 1) then 3
    else 4
  }

  lemma {:induction false} PassableSubset(g: Grid, cands: seq<Pos>)
    requires g.Valid()
    ensures |g.Passable(cands)| <= |cands|
    ensures forall q :: q in g.Passable(cands) <==> q in cands && g.InBounds(q) && !g.Color(q).Wall?
  {
    if cands != [] {
      PassableSubset(g, cands[1..]);
    }
  }

  lemma {:induction false} PassableKeepsOrder(g: Grid, p: Pos, cands: seq<Pos>)
    requires g.Valid()
    requires forall i, j :: 0 <= i < j < |cands| ==> Direction(p, cands[i]) < Direction(p, cands[j])
    ensures forall i, j :: 0 <= i < j < |g.Passable(cands)| ==>
      Direction(p, g.Passable(cands)[i]) < Direction(p, g.Passable(cands)[j])
  {
    if cands != [] {
      PassableKeepsOrder(g, p, cands[1..]);
      PassableSubset(g, cands[1..]);
      var rest := g.Passable(cands[1..]);
      forall q | q in rest
        ensures Direction(p, cands[0]) < Direction(p, q)
      {
        var j :| 0 <= j < |cands[1..]| && cands[1..][j] == q;
        assert cands[j + 1] == q;
      }
    }
  }

  /** `update_adjacent_nodes` yields at most four neighbours, each inside
      the grid, not a wall and one step away. */
  lemma AdjacentShape(g: Grid, p: Pos)
    requires g.Valid()
    ensures |g.AdjacentNodes(p)| <= 4
    ensures forall q :: q in g.AdjacentNodes(p) ==> g.InBounds(q) && !g.Color(q).Wall? && Heuristic(p, q) == 1
  {
    PassableSubset(g, Grid.Candidates(p));
  }

  /** Conversely, every grid position one step away that is not a wall is a
      neighbour. */
  lemma AdjacentComplete(g: Grid, p: Pos, q: Pos)
    requires g.Valid() && g.InBounds(q) && !g.Color(q).Wall? && Heuristic(p, q) == 1
    ensures q in g.AdjacentNodes(p)
  {
    PassableSubset(g, Grid.Candidates(p));
    assert Direction(p, q) < 4;
  }

  /** The neighbours appear in the fixed order down, up, right, left. */
  lemma AdjacentOrder(g: Grid, p: Pos)
    requires g.Valid()
    ensures forall i, j :: 0 <= i < j < |g.AdjacentNodes(p)| ==>
      Direction(p, g.AdjacentNodes(p)[i]) < Direction(p, g.AdjacentNodes(p)[j])
  {
    PassableKeepsOrder(g, p, Grid.Candidates(p));
  }
}
