/**
 * Cell state and 4-neighbour adjacency of the square grid (node.py).
 *
 * A node's colour is its state tag; the barrier layout of a colour snapshot
 * decides which cells a search may step between.
 */
module Nodes {

  /** A grid coordinate: (row, column). */
  type Pos = (int, int)

  /** The colour constants of the visualiser, pairwise distinct. */
  datatype Color = White | Red | Green | Black | Orange | Turquoise | Purple

  /** The questions `is_closed`, `is_open`, `is_barrier`, `is_start` and `is_end`. */
  datatype Query = Closed | Open | Barrier | Start | End

  /** The colour a query tests for. */
  function QueryColor(q: Query): Color
  {
    match q
    case Closed => Red
    case Open => Green
    case Barrier => Black
    case Start => Orange
    case End => Turquoise
  }

  function Abs(v: int): nat
  {
    if v < 0 then -v else v
  }

  /** p and q are 4-adjacent: one step up, down, left or right. */
  predicate Adjacent(p: Pos, q: Pos)
  {
    Abs(p.0 - q.0) + Abs(p.1 - q.1) == 1
  }

  predicate InBounds(n: int, p: Pos)
  {
    0 <= p.0 < n && 0 <= p.1 < n
  }

  /** n rows of n entries each. */
  predicate IsSquare<T>(rows: seq<seq<T>>, n: int)
  {
    |rows| == n && forall i :: 0 <= i < n ==> |rows[i]| == n
  }

  /** A cell the search may enter: inside the grid and not a barrier. */
  predicate Passable(colors: seq<seq<Color>>, n: int, p: Pos)
    requires IsSquare(colors, n)
  {
    InBounds(n, p) && colors[p.0][p.1] != Black
  }

  /**
   * The neighbour list `update_neighbors` builds for the node at p: the cells
   * below, above, right and left of p, in that order, that are inside the
   * grid and are not barriers.
   */
  function OpenNeighbors(colors: seq<seq<Color>>, n: int, p: Pos): (nb: seq<Pos>)
    requires IsSquare(colors, n) && InBounds(n, p)
    ensures AllInBounds(n, nb)
  {
    var (r, c) := p;
    Keep(r < n - 1 && colors[r + 1][c] != Black, (r + 1, c))
    + (Keep(r > 0 && colors[r - 1][c] != Black, (r - 1, c))
    + (Keep(c < n - 1 && colors[r][c + 1] != Black, (r, c + 1))
    + Keep(c > 0 && colors[r][c - 1] != Black, (r, c - 1))))
  }

  /** `[q]` when `ok` holds and `[]` otherwise: one conditional `append`. */
  function Keep(ok: bool, q: Pos): (s: seq<Pos>)
    ensures q in s <==> ok
    ensures |s| <= 1
  {
    if ok then [q] else []
  }

  /** The four candidate cells around p, in the order the source tries them. */
  function Candidates(p: Pos): seq<Pos>
  {
    [(p.0 + 1, p.1), (p.0 - 1, p.1), (p.0, p.1 + 1), (p.0, p.1 - 1)]
  }

  /** The passable cells of s, in their order in s. */
  function FilterPassable(colors: seq<seq<Color>>, n: int, s: seq<Pos>): (r: seq<Pos>)
    requires IsSquare(colors, n)
    ensures |r| <= |s|
  {
    if s == [] then []
    else Keep(Passable(colors, n, s[0]), s[0]) + FilterPassable(colors, n, s[1..])
  }

  /** Filtering keeps exactly the passable entries, which all lie inside the grid. */
  lemma {:induction false} FilterPassableMembers(colors: seq<seq<Color>>, n: int, s: seq<Pos>)
    requires IsSquare(colors, n)
    ensures forall q :: q in FilterPassable(colors, n, s) <==> q in s && Passable(colors, n, q)
    ensures AllInBounds(n, FilterPassable(colors, n, s))
  {
    if s != [] {
      FilterPassableMembers(colors, n, s[1..]);
    }
  }

  predicate NoDuplicates<T(==)>(s: seq<T>)
  {
    forall i, j :: 0 <= i < j < |s| ==> s[i] != s[j]
  }

  /** The candidates are exactly the 4-adjacent cells, each listed once. */
  lemma CandidatesAreAdjacent(p: Pos)
    ensures NoDuplicates(Candidates(p))
    ensures forall q :: q in Candidates(p) <==> Adjacent(p, q)
  {
    forall q | Adjacent(p, q)
      ensures q in Candidates(p)
    {
      if q.0 == p.0 {
        assert q.1 == p.1 + 1 || q.1 == p.1 - 1;
      } else {
        assert q.1 == p.1;
        assert q.0 == p.0 + 1 || q.0 == p.0 - 1;
      }
    }
  }

  /** Dropping entries keeps a list free of duplicates. */
  lemma {:induction false} FilterPassableNoDuplicates(colors: seq<seq<Color>>, n: int, s: seq<Pos>)
    requires IsSquare(colors, n) && NoDuplicates(s)
    ensures NoDuplicates(FilterPassable(colors, n, s))
  {
    if s != [] {
      FilterPassableNoDuplicates(colors, n, s[1..]);
      FilterPassableMembers(colors, n, s[1..]);
      assert s[0] !in s[1..];
    }
  }

  /** The neighbour list is the candidate list, in order, with the impassable cells dropped. */
  lemma OpenNeighborsInOrder(colors: seq<seq<Color>>, n: int, p: Pos)
    requires IsSquare(colors, n) && InBounds(n, p)
    ensures OpenNeighbors(colors, n, p) == FilterPassable(colors, n, Candidates(p))
  {
    var cs := Candidates(p);
    var t3 := [cs[3]] + [];
    var t2 := [cs[2]] + t3;
    var t1 := [cs[1]] + t2;
    assert [cs[0]] + t1 == cs;
    FilterPassableCons(colors, n, cs[3], []);
    FilterPassableCons(colors, n, cs[2], t3);
    FilterPassableCons(colors, n, cs[1], t2);
    FilterPassableCons(colors, n, cs[0], t1);
    var k0, k1 := Keep(Passable(colors, n, cs[0]), cs[0]), Keep(Passable(colors, n, cs[1]), cs[1]);
    var k2, k3 := Keep(Passable(colors, n, cs[2]), cs[2]), Keep(Passable(colors, n, cs[3]), cs[3]);
    assert FilterPassable(colors, n, cs) == k0 + (k1 + (k2 + (k3 + [])));
    assert k3 + [] == k3;
  }

  /** Filtering a list with one more entry in front. */
  lemma FilterPassableCons(colors: seq<seq<Color>>, n: int, q: Pos, s: seq<Pos>)
    requires IsSquare(colors, n)
    ensures FilterPassable(colors, n, [q] + s) == Keep(Passable(colors, n, q), q) + FilterPassable(colors, n, s)
  {
    assert ([q] + s)[1..] == s;
  }

  /**
   * Soundness and completeness of the neighbour list: a cell is listed exactly
   * when it is inside the grid, not a barrier, and 4-adjacent to p; it is
   * listed once, and there are at most four.
   */
  lemma OpenNeighborsExactly(colors: seq<seq<Color>>, n: int, p: Pos)
    requires IsSquare(colors, n) && InBounds(n, p)
    ensures var nb := OpenNeighbors(colors, n, p);
      && |nb| <= 4
      && NoDuplicates(nb)
      && forall q :: q in nb <==> Passable(colors, n, q) && Adjacent(p, q)
  {
    OpenNeighborsInOrder(colors, n, p);
    FilterPassableMembers(colors, n, Candidates(p));
    CandidatesAreAdjacent(p);
    FilterPassableNoDuplicates(colors, n, Candidates(p));
  }

  /**
   * The list depends only on the colours of the four cells around p: in
   * particular not on p's own colour.
   */
  lemma OpenNeighborsIgnoreOwnColor(colors: seq<seq<Color>>, n: int, p: Pos, k: Color)
    requires IsSquare(colors, n) && InBounds(n, p)
    ensures IsSquare(colors[p.0 := colors[p.0][p.1 := k]], n)
    ensures OpenNeighbors(colors[p.0 := colors[p.0][p.1 := k]], n, p) == OpenNeighbors(colors, n, p)
  {
  }

  class Node {
    const row: int
    const col: int
    const x: int
    const y: int
    const width: int
    const totalRows: int
    var color: Color
    var neighbors: seq<Node>

    constructor (row: int, col: int, width: int, totalRows: int)
      ensures this.row == row && this.col == col
      ensures x == row * width && y == col * width
      ensures this.width == width && this.totalRows == totalRows
      ensures color == White && neighbors == []
    {
      this.row := row;
      this.col := col;
      this.x := row * width;
      this.y := col * width;
      this.width := width;
      this.totalRows := totalRows;
      this.color := White;
      this.neighbors := [];
    }

    function GetPos(): (p: Pos)
      ensures p.0 == row && p.1 == col
    {
      (row, col)
    }

    predicate IsClosed()
      reads this`color
    {
      color == Red
    }

    predicate IsOpen()
      reads this`color
    {
      color == Green
    }

    predicate IsBarrier()
      reads this`color
    {
      color == Black
    }

    predicate IsStart()
      reads this`color
    {
      color == Orange
    }

    predicate IsEnd()
      reads this`color
    {
      color == Turquoise
    }

    /** The answer of the `is_*` predicate that q names. */
    predicate Holds(q: Query)
      reads this`color
    {
      match q
      case Closed => IsClosed()
      case Open => IsOpen()
      case Barrier => IsBarrier()
      case Start => IsStart()
      case End => IsEnd()
    }

    method Reset()
      modifies this`color
      ensures color == White
      ensures forall q :: !Holds(q)
    {
      color := White;
    }

    method MakeStart()
      modifies this`color
      ensures color == Orange
      ensures forall q :: Holds(q) <==> q == Start
    {
      color := Orange;
    }

    method MakeClosed()
      modifies this`color
      ensures color == Red
      ensures forall q :: Holds(q) <==> q == Closed
    {
      color := Red;
    }

    method MakeOpen()
      modifies this`color
      ensures color == Green
      ensures forall q :: Holds(q) <==> q == Open
    {
      color := Green;
    }

    method MakeBarrier()
      modifies this`color
      ensures color == Black
      ensures forall q :: Holds(q) <==> q == Barrier
    {
      color := Black;
    }

    method MakeEnd()
      modifies this`color
      ensures color == Turquoise
      ensures forall q :: Holds(q) <==> q == End
    {
      color := Turquoise;
    }

    /** The path colour answers none of the five queries. */
    method MakePath()
      modifies this`color
      ensures color == Purple
      ensures forall q :: !Holds(q)
    {
      color := Purple;
    }

    /**
     * `__lt__`: no node is ever less than another, so a tie between two
     * frontier entries could not be broken by the nodes themselves.
     */
    function Lt(other: Node): (less: bool)
      ensures !less
    {
      false
    }

    /**
     * Rebuilds the neighbour list from the grid's current barrier layout;
     * the previous list and this node's own colour play no part.
     */
    method UpdateNeighbors(grid: seq<seq<Node>>)
      requires IsGrid(grid, totalRows) && InBounds(totalRows, (row, col))
      modifies this`neighbors
      ensures neighbors == NodesAt(grid, totalRows, OpenNeighbors(old(Snapshot(grid)), totalRows, (row, col)))
    {
      ghost var colors := Snapshot(grid);
      var n := totalRows;
      var cs := Candidates((row, col));
      var list: seq<Node> := [];
      assert cs[..0] == [];
      for k := 0 to 4
        invariant FilterInBounds(colors, n, cs[..k])
        invariant list == NodesAt(grid, n, FilterPassable(colors, n, cs[..k]))
      {
        ghost var before := list;
        var (i, j) := cs[k];
        if 0 <= i < n && 0 <= j < n && !grid[i][j].IsBarrier() {
          list := list + [grid[i][j]];
        }
        AppendCandidate(grid, colors, n, cs, k, before, list);
      }
      assert cs[..4] == cs;
      OpenNeighborsInOrder(colors, n, (row, col));
      neighbors := list;
    }
  }

  predicate AllInBounds(n: int, cells: seq<Pos>)
  {
    forall q :: q in cells ==> InBounds(n, q)
  }

  /** Every node of the grid. */
  ghost function NodeSet(grid: seq<seq<Node>>): set<Node>
  {
    set i, j | 0 <= i < |grid| && 0 <= j < |grid[i]| :: grid[i][j]
  }

  /**
   * The n x n grid `make_grid` builds: row i holds n nodes and the node at
   * column j carries coordinates (i, j). Distinct positions therefore hold
   * distinct nodes.
   */
  ghost predicate IsGrid(grid: seq<seq<Node>>, n: int)
  {
    IsSquare(grid, n) &&
    forall i, j :: 0 <= i < n && 0 <= j < n ==>
      grid[i][j].row == i && grid[i][j].col == j && grid[i][j].totalRows == n
  }

  function RowColors(row: seq<Node>): (s: seq<Color>)
    reads set k | 0 <= k < |row| :: row[k]`color
    ensures |s| == |row| && forall j :: 0 <= j < |row| ==> s[j] == row[j].color
  {
    if row == [] then [] else [row[0].color] + RowColors(row[1..])
  }

  /** The colours of the grid, position by position. */
  ghost function Snapshot(grid: seq<seq<Node>>): (s: seq<seq<Color>>)
    reads NodeSet(grid)`color
    ensures |s| == |grid|
    ensures forall i :: 0 <= i < |grid| ==> |s[i]| == |grid[i]|
    ensures forall i, j :: 0 <= i < |grid| && 0 <= j < |grid[i]| ==> s[i][j] == grid[i][j].color
  {
    if grid == [] then []
    else
      assert forall k :: 0 <= k < |grid[0]| ==> grid[0][k] in NodeSet(grid);
      assert NodeSet(grid[1..]) <= NodeSet(grid) by {
        forall o | o in NodeSet(grid[1..]) ensures o in NodeSet(grid) {
          var i, j :| 0 <= i < |grid[1..]| && 0 <= j < |grid[1..][i]| && o == grid[1..][i][j];
          assert o == grid[i + 1][j];
        }
      }
      [RowColors(grid[0])] + Snapshot(grid[1..])
  }

  /** The nodes standing at the given cells of the grid. */
  function NodesAt(grid: seq<seq<Node>>, n: int, cells: seq<Pos>): (r: seq<Node>)
    requires IsSquare(grid, n)
    requires AllInBounds(n, cells)
    ensures |r| == |cells|
    ensures forall k :: 0 <= k < |cells| ==> cells[k] in cells && r[k] == grid[cells[k].0][cells[k].1]
  {
    if cells == [] then []
    else
      assert cells[0] in cells;
      [grid[cells[0].0][cells[0].1]] + NodesAt(grid, n, cells[1..])
  }

  /** The k-th node standing at the given cells reports the k-th cell as its position. */
  lemma NodesAtPos(grid: seq<seq<Node>>, n: int, cells: seq<Pos>, k: nat)
    requires IsGrid(grid, n) && AllInBounds(n, cells) && k < |cells|
    ensures (NodesAt(grid, n, cells)[k].row, NodesAt(grid, n, cells)[k].col) == cells[k]
  {
    var c := cells[k];
    assert c in cells;
  }

  predicate FilterInBounds(colors: seq<seq<Color>>, n: int, s: seq<Pos>)
    requires IsSquare(colors, n)
  {
    AllInBounds(n, FilterPassable(colors, n, s))
  }

  /** Filtering one more entry appends it when it is passable. */
  lemma {:induction false} FilterPassableSnoc(colors: seq<seq<Color>>, n: int, s: seq<Pos>, q: Pos)
    requires IsSquare(colors, n)
    ensures FilterPassable(colors, n, s + [q])
         == FilterPassable(colors, n, s) + Keep(Passable(colors, n, q), q)
  {
    if s != [] {
      assert (s + [q])[1..] == s[1..] + [q];
      FilterPassableSnoc(colors, n, s[1..], q);
    } else {
      assert [q][1..] == [];
    }
  }

  /**
   * One step of `update_neighbors`: if the list so far holds the nodes of the
   * passable candidates before index i, then after trying candidate i it holds
   * those up to and including i.
   */
  lemma AppendCandidate(grid: seq<seq<Node>>, colors: seq<seq<Color>>, n: int, cs: seq<Pos>, i: nat, before: seq<Node>, list: seq<Node>)
    requires IsSquare(grid, n) && IsSquare(colors, n) && i < |cs|
    requires FilterInBounds(colors, n, cs[..i])
    requires before == NodesAt(grid, n, FilterPassable(colors, n, cs[..i]))
    requires list == before + (if Passable(colors, n, cs[i]) then [grid[cs[i].0][cs[i].1]] else [])
    ensures FilterInBounds(colors, n, cs[..i + 1])
    ensures list == NodesAt(grid, n, FilterPassable(colors, n, cs[..i + 1]))
  {
    assert cs[..i + 1] == cs[..i] + [cs[i]];
    FilterPassableMembers(colors, n, cs[..i + 1]);
    FilterPassableSnoc(colors, n, cs[..i], cs[i]);
  }

  /** Every node's neighbour list is the one `update_neighbors` computes for the current colours. */
  ghost predicate NeighborsFresh(grid: seq<seq<Node>>, n: int)
    requires IsGrid(grid, n)
    reads NodeSet(grid)
  {
    var colors := Snapshot(grid);
    forall i, j :: 0 <= i < n && 0 <= j < n ==>
      grid[i][j].neighbors == NodesAt(grid, n, OpenNeighbors(colors, n, (i, j)))
  }

  /**
   * Every node's neighbour list is the one `update_neighbors` computes for
   * the colours `colors`; it depends on the lists alone, so painting leaves
   * it true. The search states it as `NeighborsAre(...) == true`, for the
   * same reason it so states `Between` there: kept as one fact, it is not
   * unfolded again at every step of a loop that holds the whole heap.
   */
  ghost predicate NeighborsAre(grid: seq<seq<Node>>, n: int, colors: seq<seq<Color>>)
    requires IsGrid(grid, n) && IsSquare(colors, n)
    reads NodeSet(grid)`neighbors
  {
    forall i, j :: 0 <= i < n && 0 <= j < n ==>
      grid[i][j].neighbors == NodesAt(grid, n, OpenNeighbors(colors, n, (i, j)))
  }

  /** Fresh neighbour lists are those of the current colours. */
  lemma FreshAre(grid: seq<seq<Node>>, n: int)
    requires IsGrid(grid, n) && NeighborsFresh(grid, n)
    ensures IsSquare(Snapshot(grid), n) && NeighborsAre(grid, n, Snapshot(grid))
  {
  }

  /** The snapshot of a grid is determined by its nodes' colours. */
  lemma SnapshotEquals(grid: seq<seq<Node>>, s: seq<seq<Color>>)
    requires |s| == |grid| && forall i :: 0 <= i < |grid| ==> |s[i]| == |grid[i]|
    requires forall i, j :: 0 <= i < |grid| && 0 <= j < |grid[i]| ==> grid[i][j].color == s[i][j]
    ensures Snapshot(grid) == s
  {
    var t := Snapshot(grid);
    forall i | 0 <= i < |grid|
      ensures t[i] == s[i]
    {
    }
  }
}
