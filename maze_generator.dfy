/**
 * Maze carving (maze_generator.py).
 *
 * `generate_random_maze` fills a rows x cols grid with walls (1) and carves
 * passages (0) by a depth-first walk over the cells whose coordinates are
 * both even (the lattice). Each step jumps two cells in one of four
 * directions and clears the landing cell and the cell in between, so the
 * passages form a spanning tree of the lattice.
 *
 * The random choices are inputs: the lattice indices of the origin and, for
 * every lattice cell, the order in which the four directions are tried
 * there. Every property below holds for every such choice.
 *
 * The grid itself is the 0/1 list of lists the source mutates; what carving
 * does to it is specified on the set of its cleared cells (`Render` turns
 * such a set back into the grid). `Carve` states what `add_walls` computes,
 * the method `AddWalls` is proved to compute it, and each property of the
 * carve is one lemma about `Carve`, by induction along its recursion.
 */
module MazeGenerator {
  import opened Nodes

  /** The maze: rows of 0 (passage) and 1 (wall). */
  type Layout = seq<seq<int>>

  /**
   * An order of the four jumps `add_walls` tries, (2, 0), (-2, 0), (0, 2)
   * and (0, -2), as `random.shuffle` may leave them in `directions`: four
   * different jumps, so each of the four once.
   */
  predicate IsShuffle(s: seq<Pos>)
  {
    |s| == 4 && Jump((0, 0), s[0]) && Jump((0, 0), s[1]) && Jump((0, 0), s[2]) && Jump((0, 0), s[3]) &&
    s[0] != s[1] && s[0] != s[2] && s[0] != s[3] && s[1] != s[2] && s[1] != s[3] && s[2] != s[3]
  }

  predicate Rect(g: Layout, rows: int, cols: int)
  {
    |g| == rows && forall i :: 0 <= i < rows ==> |g[i]| == cols
  }

  predicate Inside(rows: int, cols: int, p: Pos)
  {
    0 <= p.0 < rows && 0 <= p.1 < cols
  }

  /** Both coordinates even: the cells the carve walks over. */
  predicate Lattice(p: Pos)
  {
    p.0 % 2 == 0 && p.1 % 2 == 0
  }

  /** Every cell of `open` is inside the maze. */
  predicate Within(open: set<Pos>, rows: int, cols: int)
  {
    forall p :: p in open ==> Inside(rows, cols, p)
  }

  /** The 0/1 grid whose cleared cells are those of `open`. */
  function Render(rows: nat, cols: nat, open: set<Pos>): (g: Layout)
    ensures Rect(g, rows, cols)
  {
    seq(rows, i => seq(cols, j => if (i, j) in open then 0 else 1))
  }

  /** `maze[p.0][p.1] = 0`. */
  function Clear(g: Layout, p: Pos): Layout
    requires 0 <= p.0 < |g| && 0 <= p.1 < |g[p.0]|
  {
    g[p.0 := g[p.0][p.1 := 0]]
  }

  /** The cleared cells of a grid. */
  ghost function Zeros(g: Layout, rows: int, cols: int): set<Pos>
    requires Rect(g, rows, cols)
  {
    set i, j | 0 <= i < rows && 0 <= j < cols && g[i][j] == 0 :: (i, j)
  }

  /** All lattice cells of a rows x cols maze. */
  ghost function LatticeCells(rows: int, cols: int): set<Pos>
  {
    set i, j | 0 <= i < rows && 0 <= j < cols && i % 2 == 0 && j % 2 == 0 :: (i, j)
  }

  /** The lattice cells of `open`. */
  ghost function LatticeOf(open: set<Pos>): set<Pos>
  {
    set p | p in open && Lattice(p)
  }

  /** Where a jump by d from c lands: `(x + dx, y + dy)`. */
  function Land(c: Pos, d: Pos): Pos
  {
    (c.0 + d.0, c.1 + d.1)
  }

  /**
   * The cell `add_walls` clears between c and where the jump by d lands:
   * `(nx - dx // 2, ny - dy // 2)`. Dafny's `/` by 2 rounds toward minus
   * infinity, as Python's `//` does.
   */
  function Mid(c: Pos, d: Pos): Pos
  {
    (c.0 + d.0 - d.0 / 2, c.1 + d.1 - d.1 / 2)
  }

  /** q is one jump away from p. */
  predicate Jump(p: Pos, q: Pos)
  {
    q == (p.0 + 2, p.1) || q == (p.0 - 2, p.1) || q == (p.0, p.1 + 2) || q == (p.0, p.1 - 2)
  }

  /** The cell between p and a cell q one jump away. */
  function Between(p: Pos, q: Pos): Pos
  {
    ((p.0 + q.0) / 2, (p.1 + q.1) / 2)
  }

  /**
   * p, off the lattice, lies between two cleared lattice cells: it has
   * exactly one odd coordinate, and the cells on either side of it along
   * that axis are cleared.
   */
  predicate Passage(open: set<Pos>, p: Pos)
  {
    (p.0 % 2 == 1 && p.1 % 2 == 0 && (p.0 - 1, p.1) in open && (p.0 + 1, p.1) in open) ||
    (p.0 % 2 == 0 && p.1 % 2 == 1 && (p.0, p.1 - 1) in open && (p.0, p.1 + 1) in open)
  }

  /** Every cleared cell off the lattice is a passage between two cleared lattice cells. */
  predicate PassagesBetween(open: set<Pos>)
  {
    forall p :: p in open && !Lattice(p) ==> Passage(open, p)
  }

  /** Twice as many cells are cleared as lattice cells, less one: the count of a tree. */
  ghost predicate Counted(open: set<Pos>)
  {
    |open| == 2 * |LatticeOf(open)| - 1
  }

  /** A walk through cleared cells from a to b, one 4-adjacent step at a time. */
  predicate Walk(open: set<Pos>, w: seq<Pos>, a: Pos, b: Pos)
  {
    |w| >= 1 && w[0] == a && w[|w| - 1] == b &&
    (forall k :: 0 <= k < |w| ==> w[k] in open) &&
    (forall k :: 0 <= k < |w| - 1 ==> Adjacent(w[k], w[k + 1]))
  }

  /** Every cleared cell is reached from the origin by a walk through cleared cells. */
  ghost predicate Connected(open: set<Pos>, origin: Pos)
  {
    forall p :: p in open ==> exists w :: Walk(open, w, origin, p)
  }

  /** A cleared cell, or a position outside the maze. */
  predicate ClearOrOutside(open: set<Pos>, rows: int, cols: int, p: Pos)
  {
    Inside(rows, cols, p) ==> p in open
  }

  /** Every jump from p lands outside the maze or on a cleared cell. */
  predicate Finished(open: set<Pos>, rows: int, cols: int, p: Pos)
  {
    ClearOrOutside(open, rows, cols, (p.0 + 2, p.1)) && ClearOrOutside(open, rows, cols, (p.0 - 2, p.1)) &&
    ClearOrOutside(open, rows, cols, (p.0, p.1 + 2)) && ClearOrOutside(open, rows, cols, (p.0, p.1 - 2))
  }

  /**
   * The cleared cells after `add_walls` at c has tried the jumps
   * `shuffle(c)[k..]` in turn, starting from the cleared cells `open`.
   */
  ghost function Carve(open: set<Pos>, rows: int, cols: int, c: Pos, shuffle: Pos -> seq<Pos>, k: int): (r: set<Pos>)
    requires forall p :: IsShuffle(shuffle(p))
    requires Inside(rows, cols, c) && Lattice(c) && 0 <= k <= 4
    ensures open <= r
    ensures |LatticeCells(rows, cols) - r| <= |LatticeCells(rows, cols) - open|
    decreases |LatticeCells(rows, cols) - open|, 4 - k, 1
  {
    if k == 4 then open
    else
      ShuffleJump(shuffle(c), k);
      Carve(TryJump(open, rows, cols, c, shuffle(c)[k], shuffle), rows, cols, c, shuffle, k + 1)
  }

  /**
   * The cleared cells after `add_walls` at c has tried the jump d: when it
   * lands on a wall inside the maze, the landing cell and the cell in
   * between are cleared and the carve goes on from the landing cell.
   */
  ghost function TryJump(open: set<Pos>, rows: int, cols: int, c: Pos, d: Pos, shuffle: Pos -> seq<Pos>): (r: set<Pos>)
    requires forall p :: IsShuffle(shuffle(p))
    requires Inside(rows, cols, c) && Lattice(c) && Jump((0, 0), d)
    ensures open <= r
    ensures |LatticeCells(rows, cols) - r| <= |LatticeCells(rows, cols) - open|
    decreases |LatticeCells(rows, cols) - open|, 0, 0
  {
    if Inside(rows, cols, Land(c, d)) && Land(c, d) !in open then
      LatticeLand(c, d);
      DigShrinks(open, rows, cols, c, d);
      Carve(open + {Land(c, d), Mid(c, d)}, rows, cols, Land(c, d), shuffle, 0)
    else
      open
  }

  /** One turn of the loop: the carve from turn k is the carve from turn k + 1 after trying jump k. */
  lemma CarveStep(open: set<Pos>, rows: int, cols: int, c: Pos, shuffle: Pos -> seq<Pos>, k: int)
    requires forall p :: IsShuffle(shuffle(p))
    requires Inside(rows, cols, c) && Lattice(c) && 0 <= k < 4
    ensures |shuffle(c)| == 4 && Jump((0, 0), shuffle(c)[k])
    ensures var t := TryJump(open, rows, cols, c, shuffle(c)[k], shuffle);
      |LatticeCells(rows, cols) - t| <= |LatticeCells(rows, cols) - open| &&
      Carve(open, rows, cols, c, shuffle, k) == Carve(t, rows, cols, c, shuffle, k + 1)
  {
    ShuffleJump(shuffle(c), k);
  }

  /** The two outcomes of trying a jump. */
  lemma TryJumpCases(open: set<Pos>, rows: int, cols: int, c: Pos, d: Pos, shuffle: Pos -> seq<Pos>)
    requires forall p :: IsShuffle(shuffle(p))
    requires Inside(rows, cols, c) && Lattice(c) && Jump((0, 0), d)
    ensures Inside(rows, cols, Land(c, d)) && Land(c, d) !in open ==>
      Lattice(Land(c, d)) &&
      TryJump(open, rows, cols, c, d, shuffle) == Carve(open + {Land(c, d), Mid(c, d)}, rows, cols, Land(c, d), shuffle, 0)
    ensures !(Inside(rows, cols, Land(c, d)) && Land(c, d) !in open) ==> TryJump(open, rows, cols, c, d, shuffle) == open
  {
    StepGeometry(rows, cols, c, d);
  }

  /**
   * `add_walls(x, y)`: try the four jumps from (x, y) in the order `shuffle`
   * gives for it; each one that lands on a wall inside the maze clears that
   * cell and the one in between and carves on from the landing cell. The
   * grid the nested function updates in place is passed in and returned;
   * `open` names its cleared cells.
   */
  method AddWalls(maze: Layout, rows: int, cols: int, x: int, y: int, shuffle: Pos -> seq<Pos>, ghost open: set<Pos>)
    returns (maze': Layout)
    requires forall p :: IsShuffle(shuffle(p))
    requires Inside(rows, cols, (x, y)) && Lattice((x, y)) && maze == Render(rows, cols, open)
    ensures maze' == Render(rows, cols, Carve(open, rows, cols, (x, y), shuffle, 0))
    decreases |LatticeCells(rows, cols) - open|, 2
  {
    maze' := maze;
    ghost var cur := open;
    var directions := shuffle((x, y));
    for k := 0 to 4
      invariant maze' == Render(rows, cols, cur)
      invariant |LatticeCells(rows, cols) - cur| <= |LatticeCells(rows, cols) - open|
      invariant Carve(cur, rows, cols, (x, y), shuffle, k) == Carve(open, rows, cols, (x, y), shuffle, 0)
    {
      CarveStep(cur, rows, cols, (x, y), shuffle, k);
      maze' := TryDirection(maze', rows, cols, (x, y), directions[k], shuffle, cur);
      cur := TryJump(cur, rows, cols, (x, y), directions[k], shuffle);
    }
  }

  /**
   * One turn of the loop in `add_walls` at c, for the jump d: carve on
   * from the landing cell when it is on the grid and still a wall.
   */
  method TryDirection(maze: Layout, rows: int, cols: int, c: Pos, d: Pos, shuffle: Pos -> seq<Pos>, ghost cur: set<Pos>)
    returns (maze': Layout)
    requires forall p :: IsShuffle(shuffle(p))
    requires Inside(rows, cols, c) && Lattice(c) && Jump((0, 0), d) && maze == Render(rows, cols, cur)
    ensures maze' == Render(rows, cols, TryJump(cur, rows, cols, c, d, shuffle))
    decreases |LatticeCells(rows, cols) - cur|, 1
  {
    TryJumpCases(cur, rows, cols, c, d, shuffle);
    var n := Land(c, d);
    if 0 <= n.0 < rows && 0 <= n.1 < cols {
      RenderAt(rows, cols, cur, n);
    }
    if 0 <= n.0 < rows && 0 <= n.1 < cols && maze[n.0][n.1] == 1 {
      maze' := Dig(maze, rows, cols, c, d, shuffle, cur);
    } else {
      maze' := maze;
    }
  }

  /**
   * The body of the `if` in `add_walls`: clear the landing cell n and the
   * wall between c and n, then recurse at n.
   */
  method Dig(maze: Layout, rows: int, cols: int, c: Pos, d: Pos, shuffle: Pos -> seq<Pos>, ghost cur: set<Pos>)
    returns (maze': Layout)
    requires forall p :: IsShuffle(shuffle(p))
    requires Inside(rows, cols, c) && Lattice(c) && Jump((0, 0), d) && maze == Render(rows, cols, cur)
    requires Inside(rows, cols, Land(c, d)) && Land(c, d) !in cur
    ensures maze' == Render(rows, cols, Carve(cur + {Land(c, d), Mid(c, d)}, rows, cols, Land(c, d), shuffle, 0))
    decreases |LatticeCells(rows, cols) - cur|, 0
  {
    var n := Land(c, d);
    MidInside(rows, cols, c, d);
    DigShrinks(cur, rows, cols, c, d);
    LatticeLand(c, d);
    RenderClear(rows, cols, cur, n);
    maze' := Clear(maze, n);
    RenderClear(rows, cols, cur + {n}, Mid(c, d));
    maze' := Clear(maze', Mid(c, d));
    assert cur + {n} + {Mid(c, d)} == cur + {n, Mid(c, d)};
    maze' := AddWalls(maze', rows, cols, n.0, n.1, shuffle, cur + {n, Mid(c, d)});
  }

  /**
   * What `generate_random_maze` promises of its result: a rows x cols grid
   * of walls (1) and passages (0) in which every lattice cell is cleared,
   * no cell with two odd coordinates is, every other passage lies between
   * two cleared lattice cells, every passage is reached from the origin,
   * and there are 2 E - 1 passages for E lattice cells, so that the
   * passages form a spanning tree of the lattice.
   */
  ghost predicate SpanningMaze(maze: Layout, rows: int, cols: int, origin: Pos)
  {
    Rect(maze, rows, cols) &&
    (forall i, j :: 0 <= i < rows && 0 <= j < cols ==> maze[i][j] == 0 || maze[i][j] == 1) &&
    Inside(rows, cols, origin) && maze[origin.0][origin.1] == 0 &&
    LatticeCells(rows, cols) <= Zeros(maze, rows, cols) &&
    (forall i, j :: 0 <= i < rows && 0 <= j < cols && i % 2 == 1 && j % 2 == 1 ==> maze[i][j] == 1) &&
    PassagesBetween(Zeros(maze, rows, cols)) &&
    Connected(Zeros(maze, rows, cols), origin) &&
    |Zeros(maze, rows, cols)| == 2 * |LatticeCells(rows, cols)| - 1
  }

  /**
   * `generate_random_maze(rows, cols)`: the origin is the lattice cell
   * (2 kx, 2 ky), where kx and ky stand for the two `random.randint` draws,
   * and `shuffle(p)` is the order `random.shuffle` leaves the jumps in when
   * `add_walls` runs at p (each lattice cell is carved from at most once).
   *
   * The result is a rows x cols grid of walls and passages in which every
   * lattice cell is cleared, every other passage lies between two cleared
   * lattice cells (so no cell with two odd coordinates is cleared), every
   * passage is reached from the origin, and there are 2 E - 1 passages for
   * E lattice cells: the passages form a spanning tree of the lattice.
   */
  method GenerateRandomMaze(rows: int, cols: int, kx: int, ky: int, shuffle: Pos -> seq<Pos>) returns (maze: Layout)
    requires rows >= 1 && cols >= 1
    requires 0 <= kx <= (rows - 1) / 2 && 0 <= ky <= (cols - 1) / 2
    requires forall p :: IsShuffle(shuffle(p))
    ensures Inside(rows, cols, (kx * 2, ky * 2))
    ensures SpanningMaze(maze, rows, cols, (kx * 2, ky * 2))
  {
    var startX, startY := kx * 2, ky * 2;
    maze := seq(rows, i => seq(cols, j => 1));
    ghost var origin := (startX, startY);
    StartGrid(rows, cols, origin);
    maze := Clear(maze, (startX, startY));
    maze := AddWalls(maze, rows, cols, startX, startY, shuffle, {origin});
    CarvedMaze(rows, cols, origin, shuffle);
  }

  // ---------------------------------------------------------------------
  // Geometry of one jump, and the grid of a set of cleared cells.
  // ---------------------------------------------------------------------

  /** An order of the jumps holds each of the four directions. */
  lemma ShuffleJump(s: seq<Pos>, k: int)
    requires IsShuffle(s) && 0 <= k < 4
    ensures |s| == 4 && Jump((0, 0), s[k])
  {
  }

  lemma ShuffleCoversDirections(s: seq<Pos>)
    requires IsShuffle(s)
    ensures |s| == 4
    ensures forall k :: 0 <= k < 4 ==> Jump((0, 0), s[k])
    ensures (2, 0) in s && (-2, 0) in s && (0, 2) in s && (0, -2) in s
  {
  }

  /**
   * One jump by d from a lattice cell c lands on a lattice cell n, and the
   * cell `add_walls` clears with it is the one between c and n: off the
   * lattice, adjacent to both, and inside the maze when c and n are.
   */
  lemma StepGeometry(rows: int, cols: int, c: Pos, d: Pos)
    requires Lattice(c) && Jump((0, 0), d)
    ensures var n := Land(c, d);
      var m := Mid(c, d);
      Jump(c, n) && Lattice(n) && m == Between(c, n) && !Lattice(m) && m != n && m != c &&
      Adjacent(c, m) && Adjacent(m, n) &&
      (Inside(rows, cols, c) && Inside(rows, cols, n) ==> Inside(rows, cols, m)) &&
      ((m.0 % 2 == 1 && m.1 % 2 == 0 && {(m.0 - 1, m.1), (m.0 + 1, m.1)} == {c, n}) ||
       (m.0 % 2 == 0 && m.1 % 2 == 1 && {(m.0, m.1 - 1), (m.0, m.1 + 1)} == {c, n}))
  {
  }

  /** The wall between two lattice cells on the grid is on the grid. */
  lemma MidInside(rows: int, cols: int, c: Pos, d: Pos)
    requires Lattice(c) && Jump((0, 0), d) && Inside(rows, cols, c) && Inside(rows, cols, Land(c, d))
    ensures Inside(rows, cols, Mid(c, d))
  {
  }

  /** A jump from a lattice cell lands on a lattice cell. */
  lemma LatticeLand(c: Pos, d: Pos)
    requires Lattice(c) && Jump((0, 0), d)
    ensures Lattice(Land(c, d))
  {
  }

  /** The grid of walls only. */
  lemma RenderNone(rows: nat, cols: nat)
    ensures Render(rows, cols, {}) == seq(rows, i => seq(cols, j => 1))
  {
    var g := Render(rows, cols, {});
    var h := seq(rows, i => seq(cols, j => 1));
    forall i | 0 <= i < rows
      ensures g[i] == h[i]
    {
    }
  }

  /** A cell of a rendered grid. */
  lemma RenderAt(rows: nat, cols: nat, open: set<Pos>, p: Pos)
    requires Inside(rows, cols, p)
    ensures Render(rows, cols, open)[p.0][p.1] == if p in open then 0 else 1
  {
  }

  /** Clearing one cell of a rendered grid renders one more cleared cell. */
  lemma RenderClear(rows: nat, cols: nat, open: set<Pos>, p: Pos)
    requires Inside(rows, cols, p)
    ensures Clear(Render(rows, cols, open), p) == Render(rows, cols, open + {p})
  {
    var g := Clear(Render(rows, cols, open), p);
    var h := Render(rows, cols, open + {p});
    forall i | 0 <= i < rows
      ensures g[i] == h[i]
    {
    }
  }

  /** The grid of walls with only the origin cleared. */
  lemma StartGrid(rows: nat, cols: nat, origin: Pos)
    requires Inside(rows, cols, origin)
    ensures Clear(seq(rows, i => seq(cols, j => 1)), origin) == Render(rows, cols, {origin})
  {
    RenderNone(rows, cols);
    RenderClear(rows, cols, {}, origin);
    assert {} + {origin} == {origin};
  }

  /** A rendered grid holds only 0 and 1. */
  lemma RenderBinary(rows: nat, cols: nat, open: set<Pos>)
    ensures var g := Render(rows, cols, open);
      forall i, j :: 0 <= i < rows && 0 <= j < cols ==> g[i][j] == 0 || g[i][j] == 1
  {
  }

  /** With passages only between lattice cells, no cell with two odd coordinates is cleared. */
  lemma RenderOddOdd(rows: nat, cols: nat, open: set<Pos>)
    requires PassagesBetween(open)
    ensures var g := Render(rows, cols, open);
      forall i, j :: 0 <= i < rows && 0 <= j < cols && i % 2 == 1 && j % 2 == 1 ==> g[i][j] == 1
  {
    forall i, j | 0 <= i < rows && 0 <= j < cols && i % 2 == 1 && j % 2 == 1
      ensures Render(rows, cols, open)[i][j] == 1
    {
      OddOddWall(open, (i, j));
      RenderAt(rows, cols, open, (i, j));
    }
  }

  /** The cleared cells of a rendered grid are the set it was rendered from. */
  lemma ZerosOfRender(rows: nat, cols: nat, open: set<Pos>)
    requires Within(open, rows, cols)
    ensures Rect(Render(rows, cols, open), rows, cols)
    ensures Zeros(Render(rows, cols, open), rows, cols) == open
  {
    var g := Render(rows, cols, open);
    forall p | p in open
      ensures p in Zeros(g, rows, cols)
    {
      assert Inside(rows, cols, p);
      assert g[p.0][p.1] == 0;
    }
  }

  /** A jump onto a wall inside the maze leaves one lattice wall fewer. */
  lemma DigShrinks(open: set<Pos>, rows: int, cols: int, c: Pos, d: Pos)
    requires Lattice(c) && Jump((0, 0), d) && Inside(rows, cols, Land(c, d)) && Land(c, d) !in open
    ensures |LatticeCells(rows, cols) - (open + {Land(c, d), Mid(c, d)})| < |LatticeCells(rows, cols) - open|
  {
    var n := Land(c, d);
    StepGeometry(rows, cols, c, d);
    var walls := LatticeCells(rows, cols) - open;
    assert n.0 % 2 == 0 && n.1 % 2 == 0 && 0 <= n.0 < rows && 0 <= n.1 < cols;
    assert (n.0, n.1) in LatticeCells(rows, cols);
    assert n in walls;
    SubsetSmaller(LatticeCells(rows, cols) - (open + {n, Mid(c, d)}), walls - {n});
  }

  lemma {:induction false} SubsetSmaller(a: set<Pos>, b: set<Pos>)
    requires a <= b
    ensures |a| <= |b|
    decreases |a|
  {
    if a != {} {
      var x :| x in a;
      SubsetSmaller(a - {x}, b - {x});
    }
  }

  /** Carving clears only cells inside the maze. */
  lemma {:induction false} CarveWithin(open: set<Pos>, rows: int, cols: int, c: Pos, shuffle: Pos -> seq<Pos>, k: int)
    requires forall p :: IsShuffle(shuffle(p))
    requires Inside(rows, cols, c) && Lattice(c) && 0 <= k <= 4
    requires Within(open, rows, cols)
    ensures Within(Carve(open, rows, cols, c, shuffle, k), rows, cols)
    decreases |LatticeCells(rows, cols) - open|, 4 - k
  {
    if k < 4 {
      ShuffleJump(shuffle(c), k);
      var d := shuffle(c)[k];
      if Inside(rows, cols, Land(c, d)) && Land(c, d) !in open {
        StepGeometry(rows, cols, c, d);
        DigShrinks(open, rows, cols, c, d);
        CarveWithin(open + {Land(c, d), Mid(c, d)}, rows, cols, Land(c, d), shuffle, 0);
      }
      CarveWithin(TryJump(open, rows, cols, c, d, shuffle), rows, cols, c, shuffle, k + 1);
    }
  }

  // ---------------------------------------------------------------------
  // Off-lattice passages lie between cleared lattice cells.
  // ---------------------------------------------------------------------

  /** Clearing the landing cell and the cell between from a cleared cell keeps every passage between cleared lattice cells. */
  lemma StepKeepsPassages(open: set<Pos>, rows: int, cols: int, c: Pos, d: Pos)
    requires PassagesBetween(open) && c in open && Lattice(c) && Jump((0, 0), d)
    ensures PassagesBetween(open + {Land(c, d), Mid(c, d)})
  {
    StepGeometry(rows, cols, c, d);
    var open' := open + {Land(c, d), Mid(c, d)};
    forall p | p in open' && !Lattice(p)
      ensures Passage(open', p)
    {
      if p != Mid(c, d) {
        assert Passage(open, p);
      }
    }
  }

  /** Carving from a cleared cell keeps every off-lattice passage between cleared lattice cells. */
  lemma {:induction false} CarveKeepsPassages(open: set<Pos>, rows: int, cols: int, c: Pos, shuffle: Pos -> seq<Pos>, k: int)
    requires forall p :: IsShuffle(shuffle(p))
    requires Inside(rows, cols, c) && Lattice(c) && 0 <= k <= 4
    requires PassagesBetween(open) && c in open
    ensures PassagesBetween(Carve(open, rows, cols, c, shuffle, k))
    decreases |LatticeCells(rows, cols) - open|, 4 - k
  {
    if k < 4 {
      ShuffleJump(shuffle(c), k);
      var d := shuffle(c)[k];
      if Inside(rows, cols, Land(c, d)) && Land(c, d) !in open {
        StepGeometry(rows, cols, c, d);
        DigShrinks(open, rows, cols, c, d);
        StepKeepsPassages(open, rows, cols, c, d);
        CarveKeepsPassages(open + {Land(c, d), Mid(c, d)}, rows, cols, Land(c, d), shuffle, 0);
      }
      CarveKeepsPassages(TryJump(open, rows, cols, c, d, shuffle), rows, cols, c, shuffle, k + 1);
    }
  }

  /** No cell with two odd coordinates is a passage between lattice cells. */
  lemma OddOddWall(open: set<Pos>, p: Pos)
    requires PassagesBetween(open) && p.0 % 2 == 1 && p.1 % 2 == 1
    ensures p !in open
  {
  }

  // ---------------------------------------------------------------------
  // Counting: 2 E - 1 cleared cells for E cleared lattice cells.
  // ---------------------------------------------------------------------

  /** The cell between a cleared cell and a wall one jump away is still a wall. */
  lemma MidIsWall(open: set<Pos>, rows: int, cols: int, c: Pos, d: Pos)
    requires PassagesBetween(open) && c in open && Lattice(c) && Jump((0, 0), d) && Land(c, d) !in open
    ensures Mid(c, d) !in open
  {
    StepGeometry(rows, cols, c, d);
  }

  /** Clearing a lattice wall and an off-lattice wall keeps the count. */
  lemma StepKeepsCount(open: set<Pos>, n: Pos, m: Pos)
    requires Counted(open) && Lattice(n) && !Lattice(m) && n !in open && m !in open
    ensures Counted(open + {n, m})
  {
    assert LatticeOf(open + {n, m}) == LatticeOf(open) + {n};
    assert n !in LatticeOf(open);
  }

  /** Carving from a cleared cell keeps the tree count of cleared cells. */
  lemma {:induction false} CarveKeepsCount(open: set<Pos>, rows: int, cols: int, c: Pos, shuffle: Pos -> seq<Pos>, k: int)
    requires forall p :: IsShuffle(shuffle(p))
    requires Inside(rows, cols, c) && Lattice(c) && 0 <= k <= 4
    requires Counted(open) && PassagesBetween(open) && c in open
    ensures Counted(Carve(open, rows, cols, c, shuffle, k))
    decreases |LatticeCells(rows, cols) - open|, 4 - k
  {
    if k < 4 {
      ShuffleJump(shuffle(c), k);
      var d := shuffle(c)[k];
      if Inside(rows, cols, Land(c, d)) && Land(c, d) !in open {
        StepGeometry(rows, cols, c, d);
        DigShrinks(open, rows, cols, c, d);
        var carved := open + {Land(c, d), Mid(c, d)};
        MidIsWall(open, rows, cols, c, d);
        StepKeepsCount(open, Land(c, d), Mid(c, d));
        StepKeepsPassages(open, rows, cols, c, d);
        CarveKeepsCount(carved, rows, cols, Land(c, d), shuffle, 0);
        CarveKeepsPassages(carved, rows, cols, Land(c, d), shuffle, 0);
      }
      var tried := TryJump(open, rows, cols, c, d, shuffle);
      CarveKeepsCount(tried, rows, cols, c, shuffle, k + 1);
    }
  }

  /** Once every lattice cell is cleared, the cleared lattice cells are all of them. */
  lemma LatticeOfAll(open: set<Pos>, rows: int, cols: int)
    requires Within(open, rows, cols) && LatticeCells(rows, cols) <= open
    ensures LatticeOf(open) == LatticeCells(rows, cols)
  {
    forall p | p in LatticeOf(open)
      ensures p in LatticeCells(rows, cols)
    {
      assert Inside(rows, cols, p);
    }
  }

  // ---------------------------------------------------------------------
  // Connectivity: every cleared cell is reached from the origin.
  // ---------------------------------------------------------------------

  /** A walk stays one as cells are cleared. */
  lemma WalkGrows(open: set<Pos>, open': set<Pos>, w: seq<Pos>, a: Pos, b: Pos)
    requires open <= open' && Walk(open, w, a, b)
    ensures Walk(open', w, a, b)
  {
  }

  /** A walk extended by one step to a cleared cell stays one. */
  lemma WalkExtend(open: set<Pos>, w: seq<Pos>, a: Pos, b: Pos, q: Pos)
    requires Walk(open, w, a, b) && Adjacent(b, q) && q in open
    ensures Walk(open, w + [q], a, q)
  {
    var w2 := w + [q];
    forall k | 0 <= k < |w2| - 1
      ensures Adjacent(w2[k], w2[k + 1])
    {
      if k < |w| - 1 {
        assert w2[k] == w[k] && w2[k + 1] == w[k + 1];
      }
    }
  }

  /** Clearing the landing cell and the cell between from a reached cell keeps every cleared cell reached. */
  lemma StepKeepsConnected(open: set<Pos>, rows: int, cols: int, origin: Pos, c: Pos, d: Pos)
    requires Connected(open, origin) && c in open && Lattice(c) && Jump((0, 0), d)
    ensures Connected(open + {Land(c, d), Mid(c, d)}, origin)
  {
    StepGeometry(rows, cols, c, d);
    var n, m := Land(c, d), Mid(c, d);
    var open' := open + {n, m};
    var wc :| Walk(open, wc, origin, c);
    WalkGrows(open, open', wc, origin, c);
    WalkExtend(open', wc, origin, c, m);
    WalkExtend(open', wc + [m], origin, m, n);
    forall p | p in open'
      ensures exists w :: Walk(open', w, origin, p)
    {
      if p == m {
        assert Walk(open', wc + [m], origin, p);
      } else if p == n {
        assert Walk(open', wc + [m] + [n], origin, p);
      } else {
        var w :| Walk(open, w, origin, p);
        WalkGrows(open, open', w, origin, p);
      }
    }
  }

  /** Carving from a reached cell keeps every cleared cell reached from the origin. */
  lemma {:induction false} CarveKeepsConnected(open: set<Pos>, rows: int, cols: int, origin: Pos, c: Pos, shuffle: Pos -> seq<Pos>, k: int)
    requires forall p :: IsShuffle(shuffle(p))
    requires Inside(rows, cols, c) && Lattice(c) && 0 <= k <= 4
    requires Connected(open, origin) && c in open
    ensures Connected(Carve(open, rows, cols, c, shuffle, k), origin)
    decreases |LatticeCells(rows, cols) - open|, 4 - k
  {
    if k < 4 {
      ShuffleJump(shuffle(c), k);
      var d := shuffle(c)[k];
      if Inside(rows, cols, Land(c, d)) && Land(c, d) !in open {
        StepGeometry(rows, cols, c, d);
        DigShrinks(open, rows, cols, c, d);
        StepKeepsConnected(open, rows, cols, origin, c, d);
        CarveKeepsConnected(open + {Land(c, d), Mid(c, d)}, rows, cols, origin, Land(c, d), shuffle, 0);
      }
      CarveKeepsConnected(TryJump(open, rows, cols, c, d, shuffle), rows, cols, origin, c, shuffle, k + 1);
    }
  }

  // ---------------------------------------------------------------------
  // The carve exhausts the lattice.
  // ---------------------------------------------------------------------

  /** Trying all four jumps of an order of the directions finishes the cell. */
  lemma AllJumpsFinish(open: set<Pos>, rows: int, cols: int, p: Pos, s: seq<Pos>)
    requires |s| == 4 && (2, 0) in s && (-2, 0) in s && (0, 2) in s && (0, -2) in s
    requires forall i :: 0 <= i < 4 ==> ClearOrOutside(open, rows, cols, Land(p, s[i]))
    ensures Finished(open, rows, cols, p)
  {
    var a :| 0 <= a < 4 && s[a] == (2, 0);
    var b :| 0 <= b < 4 && s[b] == (-2, 0);
    var c :| 0 <= c < 4 && s[c] == (0, 2);
    var d :| 0 <= d < 4 && s[d] == (0, -2);
    assert ClearOrOutside(open, rows, cols, Land(p, s[a]));
    assert ClearOrOutside(open, rows, cols, Land(p, s[b]));
    assert ClearOrOutside(open, rows, cols, Land(p, s[c]));
    assert ClearOrOutside(open, rows, cols, Land(p, s[d]));
  }

  /**
   * Carving from c with the jumps k.. leaves each of those jumps landing
   * outside the maze or on a cleared cell, and every lattice cell it
   * cleared finished: all four of its jumps land outside or on a cleared
   * cell.
   */
  lemma {:induction false} CarveFinishes(open: set<Pos>, rows: int, cols: int, c: Pos, shuffle: Pos -> seq<Pos>, k: int)
    requires forall p :: IsShuffle(shuffle(p))
    requires Inside(rows, cols, c) && Lattice(c) && 0 <= k <= 4
    ensures |shuffle(c)| == 4
    ensures var r := Carve(open, rows, cols, c, shuffle, k);
      forall i :: k <= i < 4 ==> ClearOrOutside(r, rows, cols, Land(c, shuffle(c)[i]))
    ensures var r := Carve(open, rows, cols, c, shuffle, k);
      forall q {:trigger Finished(r, rows, cols, q)} :: q in r && q !in open && Lattice(q) ==> Finished(r, rows, cols, q)
    decreases |LatticeCells(rows, cols) - open|, 4 - k
  {
    ShuffleCoversDirections(shuffle(c));
    if k < 4 {
      var d := shuffle(c)[k];
      var r := Carve(open, rows, cols, c, shuffle, k);
      var tried := TryJump(open, rows, cols, c, d, shuffle);
      assert r == Carve(tried, rows, cols, c, shuffle, k + 1);
      CarveFinishes(tried, rows, cols, c, shuffle, k + 1);
      forall i | k <= i < 4
        ensures ClearOrOutside(r, rows, cols, Land(c, shuffle(c)[i]))
      {
        if i == k {
          assert Land(c, d) in tried || !Inside(rows, cols, Land(c, d));
        }
      }
      if Inside(rows, cols, Land(c, d)) && Land(c, d) !in open {
        var n := Land(c, d);
        StepGeometry(rows, cols, c, d);
        DigShrinks(open, rows, cols, c, d);
        var carved := open + {n, Mid(c, d)};
        CarveFinishes(carved, rows, cols, n, shuffle, 0);
        assert tried == Carve(carved, rows, cols, n, shuffle, 0);
        ShuffleCoversDirections(shuffle(n));
        AllJumpsFinish(tried, rows, cols, n, shuffle(n));
        NewlyFinished(open, carved, tried, r, rows, cols, n, Mid(c, d));
      } else {
        NewlyFinished(open, open, tried, r, rows, cols, c, c);
      }
    }
  }

  /**
   * Lattice cells cleared on the way from `open` to `r` through `carved`
   * (which adds n and the off-lattice m, or nothing) and `tried` are
   * finished in `r`, when those cleared after `carved` are finished where
   * they were cleared and n is finished in `tried`.
   */
  lemma NewlyFinished(open: set<Pos>, carved: set<Pos>, tried: set<Pos>, r: set<Pos>, rows: int, cols: int, n: Pos, m: Pos)
    requires carved == open + {n, m} || carved == open
    requires !Lattice(m) || carved == open
    requires carved <= tried <= r
    requires carved != open ==> Finished(tried, rows, cols, n)
    requires forall q {:trigger Finished(tried, rows, cols, q)} :: q in tried && q !in carved && Lattice(q) ==> Finished(tried, rows, cols, q)
    requires forall q {:trigger Finished(r, rows, cols, q)} :: q in r && q !in tried && Lattice(q) ==> Finished(r, rows, cols, q)
    ensures forall q {:trigger Finished(r, rows, cols, q)} :: q in r && q !in open && Lattice(q) ==> Finished(r, rows, cols, q)
  {
    forall q | q in r && q !in open && Lattice(q)
      ensures Finished(r, rows, cols, q)
    {
      if q in tried {
        if q in carved {
          assert q == n;
        }
        assert Finished(tried, rows, cols, q);
      }
    }
  }

  /**
   * Once every cleared lattice cell is finished, the lattice is cleared
   * everywhere: from p, move two rows at a time to the target row, then two
   * columns at a time to the target column.
   */
  lemma {:induction false} FinishedSpreads(open: set<Pos>, rows: int, cols: int, p: Pos, t: Pos)
    requires forall q {:trigger Finished(open, rows, cols, q)} :: q in open && Lattice(q) ==> Finished(open, rows, cols, q)
    requires p in open && Inside(rows, cols, p) && Lattice(p)
    requires Inside(rows, cols, t) && Lattice(t)
    ensures t in open
    decreases Abs(p.0 - t.0) + Abs(p.1 - t.1)
  {
    assert Finished(open, rows, cols, p);
    if p == t {
    } else if p.0 < t.0 {
      FinishedSpreads(open, rows, cols, (p.0 + 2, p.1), t);
    } else if p.0 > t.0 {
      FinishedSpreads(open, rows, cols, (p.0 - 2, p.1), t);
    } else if p.1 < t.1 {
      FinishedSpreads(open, rows, cols, (p.0, p.1 + 2), t);
    } else {
      FinishedSpreads(open, rows, cols, (p.0, p.1 - 2), t);
    }
  }

  /**
   * After carving from the origin, with all four jumps from it tried and
   * every other cleared lattice cell finished, every lattice cell is
   * cleared.
   */
  lemma AllLatticeCleared(open: set<Pos>, rows: int, cols: int, origin: Pos, s: seq<Pos>)
    requires origin in open && Inside(rows, cols, origin) && Lattice(origin)
    requires |s| == 4 && (2, 0) in s && (-2, 0) in s && (0, 2) in s && (0, -2) in s
    requires forall i :: 0 <= i < 4 ==> ClearOrOutside(open, rows, cols, Land(origin, s[i]))
    requires forall q {:trigger Finished(open, rows, cols, q)} :: q in open && q !in {origin} && Lattice(q) ==> Finished(open, rows, cols, q)
    ensures LatticeCells(rows, cols) <= open
  {
    AllJumpsFinish(open, rows, cols, origin, s);
    forall q | q in open && Lattice(q)
      ensures Finished(open, rows, cols, q)
    {
      if q != origin {
        assert q !in {origin};
      }
    }
    forall t | t in LatticeCells(rows, cols)
      ensures t in open
    {
      FinishedSpreads(open, rows, cols, origin, t);
    }
  }

  /**
   * The carve from the origin clears, inside the grid, every lattice cell
   * and one wall per lattice cell but the origin, all reached from the
   * origin: a spanning tree of the lattice.
   */
  lemma SpanningTree(rows: int, cols: int, origin: Pos, shuffle: Pos -> seq<Pos>)
    requires forall p :: IsShuffle(shuffle(p))
    requires Inside(rows, cols, origin) && Lattice(origin)
    ensures var t := Carve({origin}, rows, cols, origin, shuffle, 0);
      origin in t && Within(t, rows, cols) && LatticeCells(rows, cols) <= t &&
      PassagesBetween(t) && Connected(t, origin) && |t| == 2 * |LatticeCells(rows, cols)| - 1
  {
    var t := Carve({origin}, rows, cols, origin, shuffle, 0);
    StartInvariants(origin);
    CarveWithin({origin}, rows, cols, origin, shuffle, 0);
    CarveKeepsPassages({origin}, rows, cols, origin, shuffle, 0);
    CarveKeepsCount({origin}, rows, cols, origin, shuffle, 0);
    CarveKeepsConnected({origin}, rows, cols, origin, origin, shuffle, 0);
    CarveCoversLattice(rows, cols, origin, shuffle);
    LatticeOfAll(t, rows, cols);
  }

  /** The carve from the origin clears every lattice cell of the grid. */
  lemma CarveCoversLattice(rows: int, cols: int, origin: Pos, shuffle: Pos -> seq<Pos>)
    requires forall p :: IsShuffle(shuffle(p))
    requires Inside(rows, cols, origin) && Lattice(origin)
    ensures LatticeCells(rows, cols) <= Carve({origin}, rows, cols, origin, shuffle, 0)
  {
    var t := Carve({origin}, rows, cols, origin, shuffle, 0);
    CarveFinishes({origin}, rows, cols, origin, shuffle, 0);
    ShuffleCoversDirections(shuffle(origin));
    AllLatticeCleared(t, rows, cols, origin, shuffle(origin));
  }

  /** `SpanningTree`, read on the grid the carve leaves. */
  lemma CarvedMaze(rows: nat, cols: nat, origin: Pos, shuffle: Pos -> seq<Pos>)
    requires forall p :: IsShuffle(shuffle(p))
    requires Inside(rows, cols, origin) && Lattice(origin)
    ensures SpanningMaze(Render(rows, cols, Carve({origin}, rows, cols, origin, shuffle, 0)), rows, cols, origin)
  {
    var passages := Carve({origin}, rows, cols, origin, shuffle, 0);
    SpanningTree(rows, cols, origin, shuffle);
    ZerosOfRender(rows, cols, passages);
    RenderBinary(rows, cols, passages);
    RenderOddOdd(rows, cols, passages);
    RenderAt(rows, cols, passages, origin);
  }

  /** The starting maze, the origin alone cleared, meets every invariant. */
  lemma StartInvariants(origin: Pos)
    requires Lattice(origin)
    ensures PassagesBetween({origin}) && Counted({origin}) && Connected({origin}, origin)
  {
    assert LatticeOf({origin}) == {origin};
    assert Walk({origin}, [origin], origin, origin);
  }

  // ---------------------------------------------------------------------
  // Loading a maze onto the grid of nodes, and clearing the grid.
  // ---------------------------------------------------------------------

  /** (i, j) is a cell of the maze and holds a wall. */
  predicate WallAt(maze: Layout, i: int, j: int)
  {
    0 <= i < |maze| && 0 <= j < |maze[i]| && maze[i][j] == 1
  }

  /** The colours after `load_predefined_maze`, given the colours before. */
  function Loaded(colors: seq<seq<Color>>, maze: Layout): (r: seq<seq<Color>>)
    ensures |r| == |colors| && forall i :: 0 <= i < |r| ==> |r[i]| == |colors[i]|
  {
    seq(|colors|, i requires 0 <= i < |colors| =>
      seq(|colors[i]|, j requires 0 <= j < |colors[i]| => if WallAt(maze, i, j) then Black else colors[i][j]))
  }

  /** The colours after `clear_grid`, given the colours before. */
  function Cleared(colors: seq<seq<Color>>): (r: seq<seq<Color>>)
    ensures |r| == |colors| && forall i :: 0 <= i < |r| ==> |r[i]| == |colors[i]|
  {
    seq(|colors|, i requires 0 <= i < |colors| => seq(|colors[i]|, j => White))
  }

  /**
   * `load_predefined_maze(grid, maze)`: every node under a wall of the maze
   * becomes a barrier; every other node keeps its colour. The maze may be
   * smaller than the grid but not larger, since the source indexes the grid
   * with the maze's coordinates.
   */
  method LoadPredefinedMaze(grid: seq<seq<Node>>, maze: Layout)
    requires IsGrid(grid, |grid|)
    requires |maze| <= |grid| && forall i :: 0 <= i < |maze| ==> |maze[i]| <= |grid|
    modifies NodeSet(grid)`color
    ensures Snapshot(grid) == Loaded(old(Snapshot(grid)), maze)
  {
    ghost var n := |grid|;
    for i := 0 to |maze|
      invariant forall a, b :: 0 <= a < n && 0 <= b < n ==>
        grid[a][b].color == if a < i && WallAt(maze, a, b) then Black else old(grid[a][b].color)
    {
      for j := 0 to |maze[i]|
        invariant forall a, b :: 0 <= a < n && 0 <= b < n ==>
          grid[a][b].color == if (a < i || (a == i && b < j)) && WallAt(maze, a, b) then Black else old(grid[a][b].color)
      {
        var node := grid[i][j];
        if maze[i][j] == 1 {
          node.MakeBarrier();
        }
      }
    }
    SnapshotEquals(grid, Loaded(old(Snapshot(grid)), maze));
  }

  /**
   * `clear_grid(grid)`: every node of every row is reset to white. Nothing
   * else of a node changes, and nothing is asked of the grid's shape.
   */
  method ClearGrid(grid: seq<seq<Node>>)
    modifies NodeSet(grid)`color
    ensures forall i, j :: 0 <= i < |grid| && 0 <= j < |grid[i]| ==> grid[i][j].color == White
    ensures Snapshot(grid) == Cleared(old(Snapshot(grid)))
  {
    for i := 0 to |grid|
      invariant forall a, b :: 0 <= a < i && 0 <= b < |grid[a]| ==> grid[a][b].color == White
    {
      for j := 0 to |grid[i]|
        invariant forall a, b :: 0 <= a < i && 0 <= b < |grid[a]| ==> grid[a][b].color == White
        invariant forall b :: 0 <= b < j ==> grid[i][b].color == White
      {
        var node := grid[i][j];
        node.Reset();
      }
    }
    SnapshotEquals(grid, Cleared(old(Snapshot(grid))));
  }

  /**
   * Loading turns exactly the maze's walls into barriers: a cell is a
   * barrier afterwards when it is a wall of the maze or was a barrier
   * before, and a cell that is not a wall keeps its colour.
   */
  lemma LoadedBarriers(colors: seq<seq<Color>>, maze: Layout)
    ensures var r := Loaded(colors, maze);
      forall i, j :: 0 <= i < |colors| && 0 <= j < |colors[i]| ==>
        (r[i][j] == Black <==> WallAt(maze, i, j) || colors[i][j] == Black) &&
        (!WallAt(maze, i, j) ==> r[i][j] == colors[i][j])
  {
  }

  /** Loading the same maze twice is loading it once. */
  lemma LoadIdempotent(colors: seq<seq<Color>>, maze: Layout)
    ensures Loaded(Loaded(colors, maze), maze) == Loaded(colors, maze)
  {
    var once := Loaded(colors, maze);
    var twice := Loaded(once, maze);
    forall i | 0 <= i < |colors|
      ensures twice[i] == once[i]
    {
    }
  }

  /** Clearing twice is clearing once, and a cleared grid answers no query. */
  lemma ClearIdempotent(colors: seq<seq<Color>>)
    ensures Cleared(Cleared(colors)) == Cleared(colors)
    ensures forall i, j, q :: 0 <= i < |colors| && 0 <= j < |colors[i]| ==> Cleared(colors)[i][j] != QueryColor(q)
  {
    var once := Cleared(colors);
    var twice := Cleared(once);
    forall i | 0 <= i < |colors|
      ensures twice[i] == once[i]
    {
    }
  }

  /**
   * Clearing the grid and then loading a generated n x n maze, as the `R`
   * key does, leaves exactly the maze's passages passable for the search.
   */
  lemma LoadedMazePassable(colors: seq<seq<Color>>, n: int, maze: Layout, origin: Pos)
    requires IsSquare(colors, n) && SpanningMaze(maze, n, n, origin)
    ensures IsSquare(Loaded(Cleared(colors), maze), n)
    ensures forall p :: Passable(Loaded(Cleared(colors), maze), n, p) <==> p in Zeros(maze, n, n)
  {
    var r := Loaded(Cleared(colors), maze);
    forall p
      ensures Passable(r, n, p) <==> p in Zeros(maze, n, n)
    {
      if InBounds(n, p) {
        assert (p.0, p.1) == p;
      }
    }
  }
}

