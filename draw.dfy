/**
 * Grid construction and the pixel-to-cell mapping (draw.py).
 *
 * The window is `width` pixels square and shows `rows` x `rows` cells, each
 * `width // rows` pixels wide. Python's `//` rounds toward minus infinity,
 * which `FloorDiv` spells out for both signs of the divisor.
 */
module Draw {
  import opened Nodes

  /** Python's `a // b`: the integer q with q <= a/b < q + 1. */
  function FloorDiv(a: int, b: int): (q: int)
    requires b != 0
    ensures b > 0 ==> b * q <= a < b * q + b
    ensures b < 0 ==> b * q + b < a <= b * q
  {
    if b > 0 then a / b else (-a) / (-b)
  }

  /** The node `make_grid` places at (i, j): a white cell with no neighbours yet. */
  predicate NewCell(node: Node, i: int, j: int, rows: int, gap: int)
    reads node
  {
    node.row == i && node.col == j && node.totalRows == rows &&
    node.width == gap && node.x == i * gap && node.y == j * gap &&
    node.color == White && node.neighbors == []
  }

  /**
   * `make_grid`: `rows` lists of `rows` fresh nodes, the node at (i, j)
   * knowing its own coordinates, the cell width `width // rows` and the grid
   * size. A negative `rows` gives an empty grid, as `range` does.
   */
  method MakeGrid(rows: int, width: int) returns (grid: seq<seq<Node>>)
    requires rows != 0
    ensures rows < 0 ==> grid == []
    ensures rows > 0 ==> IsGrid(grid, rows)
    ensures fresh(NodeSet(grid))
    ensures forall i, j :: 0 <= i < |grid| && 0 <= j < |grid[i]| ==>
      NewCell(grid[i][j], i, j, rows, FloorDiv(width, rows))
  {
    grid := [];
    var gap := FloorDiv(width, rows);
    var i := 0;
    while i < rows
      invariant 0 <= i && (rows > 0 ==> i <= rows) && (rows < 0 ==> i == 0)
      invariant |grid| == i
      invariant forall a :: 0 <= a < i ==> |grid[a]| == rows
      invariant forall a, b :: 0 <= a < i && 0 <= b < rows ==>
        fresh(grid[a][b]) && NewCell(grid[a][b], a, b, rows, gap)
    {
      grid := grid + [[]];
      var j := 0;
      while j < rows
        invariant 0 <= j <= rows
        invariant |grid| == i + 1 && |grid[i]| == j
        invariant forall a :: 0 <= a < i ==> |grid[a]| == rows
        invariant forall a, b :: 0 <= a < i && 0 <= b < rows ==>
          fresh(grid[a][b]) && NewCell(grid[a][b], a, b, rows, gap)
        invariant forall b :: 0 <= b < j ==> fresh(grid[i][b]) && NewCell(grid[i][b], i, b, rows, gap)
      {
        var node := new Node(i, j, gap, rows);
        grid := grid[i := grid[i] + [node]];
        j := j + 1;
      }
      i := i + 1;
    }
  }

  /**
   * `get_clicked_pos`: the cell under a pixel. The first pixel component
   * becomes the row and the second the column; nothing is clamped.
   */
  function GetClickedPos(pos: (int, int), rows: int, width: int): (cell: Pos)
    requires rows != 0 && FloorDiv(width, rows) != 0
  {
    var gap := FloorDiv(width, rows);
    var (y, x) := pos;
    (FloorDiv(y, gap), FloorDiv(x, gap))
  }

  /** Cells have a positive width exactly when there are no more rows than pixels. */
  lemma GapPositive(rows: int, width: int)
    requires rows > 0
    ensures FloorDiv(width, rows) > 0 <==> rows <= width
  {
  }

  /**
   * A click anywhere inside the square a node draws, starting at its
   * (x, y) corner and `gap` pixels wide, selects that node's cell.
   */
  lemma ClickRoundTrip(rows: int, width: int, i: int, j: int, a: int, b: int)
    requires rows != 0 && FloorDiv(width, rows) > 0
    requires 0 <= a < FloorDiv(width, rows) && 0 <= b < FloorDiv(width, rows)
    ensures GetClickedPos((i * FloorDiv(width, rows) + a, j * FloorDiv(width, rows) + b), rows, width) == (i, j)
  {
    var gap := FloorDiv(width, rows);
    var cell := GetClickedPos((i * gap + a, j * gap + b), rows, width);
    FloorUnique(i * gap + a, gap, i);
    FloorUnique(j * gap + b, gap, j);
  }

  /** The bracket of `FloorDiv` has one solution. */
  lemma FloorUnique(v: int, gap: int, k: int)
    requires gap > 0 && gap * k <= v < gap * k + gap
    ensures FloorDiv(v, gap) == k
  {
    var q := FloorDiv(v, gap);
    if q < k {
      assert gap * (k - q) == gap * k - gap * q;
      ScaleAtLeastOnce(gap, k - q);
    } else if q > k {
      assert gap * (q - k) == gap * q - gap * k;
      ScaleAtLeastOnce(gap, q - k);
    }
  }

  lemma ScaleAtLeastOnce(g: int, d: int)
    requires g > 0 && d >= 1
    ensures g * d >= g
  {
    assert g * d == g * (d - 1) + g;
  }

  /**
   * With positive cells, the clicked cell lies on the grid exactly when both
   * pixel components lie in [0, rows * gap).
   */
  lemma ClickInRange(pos: (int, int), rows: int, width: int)
    requires rows > 0 && FloorDiv(width, rows) > 0
    ensures var gap := FloorDiv(width, rows);
      InBounds(rows, GetClickedPos(pos, rows, width)) <==>
        (0 <= pos.0 < rows * gap && 0 <= pos.1 < rows * gap)
  {
    var gap := FloorDiv(width, rows);
    FloorInRange(pos.0, gap, rows);
    FloorInRange(pos.1, gap, rows);
  }

  lemma FloorInRange(v: int, gap: int, rows: int)
    requires gap > 0 && rows > 0
    ensures 0 <= FloorDiv(v, gap) < rows <==> 0 <= v < rows * gap
  {
    var q := FloorDiv(v, gap);
    if q < 0 {
      ScaleAtLeastOnce(gap, -q);
      assert gap * (-q) == -(gap * q);
    } else if q >= rows {
      ScaleAtLeastOnce(gap, q - rows + 1);
      assert gap * (q - rows + 1) == gap * q - gap * rows + gap;
    } else {
      ScaleAtLeastOnce(gap, rows - q);
      assert gap * (rows - q) == gap * rows - gap * q;
    }
  }
}
