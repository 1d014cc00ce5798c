/**
 * A* search over the grid (astar.py).
 *
 * The search keys its dictionaries by node; here they are keyed by the
 * node's position, which the grid makes one-to-one. Scores are naturals or
 * the infinite sentinel. The priority queue is a sequence of entries
 * (f, count, cell) from which the entry with the least (f, count) is taken.
 * Each call of the `draw` callback is one frame of a ghost trace.
 *
 * The graph searched is the one the neighbour lists describe: the colours
 * when the search starts decide which cells are barriers, and the search
 * itself never makes a barrier, so the graph does not change.
 */
module AStar {
  import opened Nodes

  // ---------------------------------------------------------------------
  // The heuristic.
  // ---------------------------------------------------------------------

  /** `h(p1, p2)`: the Manhattan distance. */
  function H(p1: Pos, p2: Pos): nat
  {
    Abs(p1.0 - p2.0) + Abs(p1.1 - p2.1)
  }

  /** The distance does not depend on the order of its arguments, and is 0 exactly between equal points. */
  lemma HSymmetricZero(p: Pos, q: Pos)
    ensures H(p, q) == H(q, p)
    ensures H(p, q) == 0 <==> p == q
  {
  }

  /** One step to a 4-adjacent cell changes the distance to any goal by exactly one. */
  lemma HConsistent(p: Pos, q: Pos, goal: Pos)
    requires Adjacent(p, q)
    ensures H(p, goal) == H(q, goal) + 1 || H(q, goal) == H(p, goal) + 1
  {
  }

  // ---------------------------------------------------------------------
  // Scores with the infinite sentinel.
  // ---------------------------------------------------------------------

  /** A g- or f-score: a natural, or `float("inf")`. */
  datatype Score = Finite(v: nat) | Infinite

  /** `s + 1`, with infinity absorbing. */
  function Plus(s: Score, k: nat): (r: Score)
    ensures r.Finite? <==> s.Finite?
    ensures r.Finite? ==> r.v == s.v + k
  {
    match s
    case Finite(v) => Finite(v + k)
    case Infinite => Infinite
  }

  /** `a < b`: every natural is below infinity, and infinity is below nothing. */
  predicate Below(a: Score, b: Score)
  {
    match (a, b)
    case (Finite(x), Finite(y)) => x < y
    case (Finite(_), Infinite) => true
    case (Infinite, _) => false
  }

  // ---------------------------------------------------------------------
  // The frontier.
  // ---------------------------------------------------------------------

  /** One item of `open_set`: the tuple (f, count, node). */
  datatype Entry = Entry(key: nat, count: nat, cell: Pos)

  /** Tuple order on (f, count); the node is compared only on a tie of both. */
  predicate Precedes(a: Entry, b: Entry)
  {
    a.key < b.key || (a.key == b.key && a.count < b.count)
  }

  /** The position of an entry with the least (f, count): what `open_set.get()` takes. */
  function MinIndex(q: seq<Entry>): (i: nat)
    requires q != []
    ensures i < |q| && forall j :: 0 <= j < |q| ==> !Precedes(q[j], q[i])
  {
    if |q| == 1 then 0
    else
      var k := MinIndex(q[1..]) + 1;
      assert forall j :: 1 <= j < |q| ==> q[j] == q[1..][j - 1];
      if Precedes(q[k], q[0]) then k else 0
  }

  /** The cells of the entries: what `open_set_hash` mirrors. */
  function CellsOf(q: seq<Entry>): (cells: set<Pos>)
    ensures forall k :: 0 <= k < |q| ==> q[k].cell in cells
    ensures forall c :: c in cells ==> exists k :: 0 <= k < |q| && q[k].cell == c
  {
    set k | 0 <= k < |q| :: q[k].cell
  }

  /** Insertion counters strictly increase along the queue, all of them at most `count`. */
  predicate CountsIncrease(q: seq<Entry>, count: nat)
  {
    (forall i, j :: 0 <= i < j < |q| ==> q[i].count < q[j].count) &&
    (forall i :: 0 <= i < |q| ==> q[i].count <= count)
  }

  /**
   * With distinct counters, any two different entries are ordered by
   * (f, count) alone: the tuple comparison never reaches `Node.__lt__`.
   */
  lemma NoTies(q: seq<Entry>, count: nat, i: int, j: int)
    requires CountsIncrease(q, count) && 0 <= i < |q| && 0 <= j < |q| && i != j
    ensures Precedes(q[i], q[j]) || Precedes(q[j], q[i])
  {
  }

  /** With distinct counters the entry `get` takes is the only least one. */
  lemma MinUnique(q: seq<Entry>, count: nat, i: int)
    requires q != [] && CountsIncrease(q, count) && 0 <= i < |q|
    requires forall j :: 0 <= j < |q| ==> !Precedes(q[j], q[i])
    ensures i == MinIndex(q)
  {
    var m := MinIndex(q);
    if i != m {
      NoTies(q, count, i, m);
    }
  }

  // ---------------------------------------------------------------------
  // Walks over the neighbour graph.
  // ---------------------------------------------------------------------

  /**
   * An edge of the graph searched: q is 4-adjacent to p and passable. By
   * `OpenNeighborsExactly` these are exactly the cells in p's neighbour list.
   */
  predicate Step(colors: seq<seq<Color>>, n: int, p: Pos, q: Pos)
    requires IsSquare(colors, n)
  {
    Adjacent(p, q) && Passable(colors, n, q)
  }

  /** w is a walk: it starts inside the grid and each cell steps to the next. */
  ghost predicate IsWalk(colors: seq<seq<Color>>, n: int, w: seq<Pos>)
    requires IsSquare(colors, n)
  {
    |w| >= 1 && InBounds(n, w[0]) &&
    forall k :: 0 <= k < |w| - 1 ==> Step(colors, n, w[k], w[k + 1])
  }

  /** Some walk leads from a to b. */
  ghost predicate Reachable(colors: seq<seq<Color>>, n: int, a: Pos, b: Pos)
    requires IsSquare(colors, n)
  {
    exists w :: IsWalk(colors, n, w) && w[0] == a && w[|w| - 1] == b
  }

  /** A walk extends by any neighbour of its last cell. */
  lemma ReachableStep(colors: seq<seq<Color>>, n: int, a: Pos, b: Pos, c: Pos)
    requires IsSquare(colors, n)
    requires Reachable(colors, n, a, b) && Step(colors, n, b, c)
    ensures Reachable(colors, n, a, c)
  {
    var w :| IsWalk(colors, n, w) && w[0] == a && w[|w| - 1] == b;
    var w' := w + [c];
    assert forall k :: 0 <= k < |w| ==> w'[k] == w[k];
    assert IsWalk(colors, n, w');
  }

  // ---------------------------------------------------------------------
  // The state of the search.
  // ---------------------------------------------------------------------

  /**
   * The locals of `algorithm`: `open_set`, `open_set_hash`, `came_from`,
   * `g_score`, `f_score` and `count`.
   */
  datatype Search = Search(openSet: seq<Entry>, hash: set<Pos>, cameFrom: map<Pos, Pos>,
                           g: map<Pos, Score>, f: map<Pos, Score>, count: nat)

  /** Every cell of the n x n grid scored infinity. */
  function InfScores(n: int): (m: map<Pos, Score>)
    ensures forall p :: p in m <==> InBounds(n, p)
    ensures forall p :: p in m ==> m[p] == Infinite
  {
    map i, j | 0 <= i < n && 0 <= j < n :: (i, j) := Infinite
  }

  /**
   * The state before the first iteration: the start alone in the queue,
   * entered with key 0 (not its f-score) and counter 0; g 0 at the start
   * and infinity elsewhere; f the heuristic at the start.
   */
  function Initial(n: int, start: Pos, end: Pos): Search
  {
    Search([Entry(0, 0, start)], {start}, map[],
           InfScores(n)[start := Finite(0)], InfScores(n)[start := Finite(H(start, end))], 0)
  }

  /** The cell has a finite g-score: the search has reached it. */
  predicate Reached(g: map<Pos, Score>, c: Pos)
  {
    c in g && g[c].Finite?
  }

  /** `open_set.get()` followed by `open_set_hash.remove`: entry m leaves the queue. */
  function Pop(s: Search, m: nat): (r: Search)
    requires m < |s.openSet|
    ensures |r.openSet| + 1 == |s.openSet| && r.openSet == RemoveAt(s.openSet, m)
    ensures r.hash == s.hash - {s.openSet[m].cell}
    ensures r.cameFrom == s.cameFrom && r.g == s.g && r.f == s.f && r.count == s.count
  {
    assert s.openSet == s.openSet[..m] + [s.openSet[m]] + s.openSet[m + 1..];
    s.(openSet := RemoveAt(s.openSet, m), hash := s.hash - {s.openSet[m].cell})
  }

  /**
   * One turn of the neighbour loop: when the route through `cur` is shorter
   * than nb's score, nb takes `cur` as predecessor and the new scores, and
   * joins the queue (with the next counter) unless it is already there.
   */
  function Relax(s: Search, cur: Pos, nb: Pos, end: Pos): (r: Search)
    requires cur in s.g && nb in s.g
    ensures r.g.Keys == s.g.Keys
    ensures forall c :: c in s.g ==> !Below(s.g[c], r.g[c])
    ensures !Below(Plus(s.g[cur], 1), r.g[nb])
  {
    var temp := Plus(s.g[cur], 1);
    if !Below(temp, s.g[nb]) then s
    else
      var key := temp.v + H(nb, end);
      var s1 := s.(cameFrom := s.cameFrom[nb := cur], g := s.g[nb := temp], f := s.f[nb := Finite(key)]);
      if nb in s.hash then s1
      else s1.(openSet := s.openSet + [Entry(key, s.count + 1, nb)], hash := s.hash + {nb}, count := s.count + 1)
  }

  // ---------------------------------------------------------------------
  // The invariant of the search.
  // ---------------------------------------------------------------------

  /** g is defined on exactly the cells of the grid, and is 0 at the start. */
  ghost predicate Scored(s: Search, n: int, start: Pos)
  {
    InBounds(n, start) && (forall p :: p in s.g <==> InBounds(n, p)) && s.g[start] == Finite(0)
  }

  /** Every recorded predecessor is a reached cell with a strictly smaller g-score. */
  ghost predicate ParentsOk(cameFrom: map<Pos, Pos>, g: map<Pos, Score>, n: int)
  {
    forall c {:trigger cameFrom[c]} :: c in cameFrom ==>
      InBounds(n, c) && InBounds(n, cameFrom[c]) && Reached(g, c) && Reached(g, cameFrom[c]) &&
      g[cameFrom[c]].v < g[c].v
  }

  /**
   * The predecessors form a tree rooted at the start: every reached cell but
   * the start has a predecessor, of which it is a neighbour.
   */
  ghost predicate Tree(colors: seq<seq<Color>>, n: int, start: Pos, cameFrom: map<Pos, Pos>, g: map<Pos, Score>)
    requires IsSquare(colors, n)
  {
    InBounds(n, start) && Reached(g, start) && start !in cameFrom &&
    ParentsOk(cameFrom, g, n) &&
    (forall c :: c in cameFrom ==> Step(colors, n, cameFrom[c], c)) &&
    (forall c :: Reached(g, c) && c != start ==> c in cameFrom)
  }

  /**
   * The queue holds each cell of `open_set_hash` exactly once, every one of
   * them reached and inside the grid, with increasing counters.
   */
  ghost predicate FrontierOk(s: Search, n: int)
  {
    s.hash == CellsOf(s.openSet) &&
    CountsIncrease(s.openSet, s.count) &&
    (forall i, j :: 0 <= i < j < |s.openSet| ==> s.openSet[i].cell != s.openSet[j].cell) &&
    (forall c :: c in s.hash ==> InBounds(n, c) && Reached(s.g, c))
  }

  /** Every neighbour of c has been reached. */
  ghost predicate NeighborsReached(colors: seq<seq<Color>>, n: int, g: map<Pos, Score>, c: Pos)
    requires IsSquare(colors, n) && InBounds(n, c)
  {
    forall d :: Step(colors, n, c, d) ==> Reached(g, d)
  }

  /**
   * Every expanded cell is not the end and has all its neighbours reached;
   * every reached cell is queued, expanded or being expanded.
   */
  ghost predicate Covered(s: Search, colors: seq<seq<Color>>, n: int, end: Pos, expanded: seq<Pos>, active: set<Pos>)
    requires IsSquare(colors, n)
  {
    (forall c :: c in expanded ==> InBounds(n, c) && c != end && Reached(s.g, c) && NeighborsReached(colors, n, s.g, c)) &&
    (forall c :: Reached(s.g, c) ==> c in s.hash || c in expanded || c in active)
  }

  /** What holds of the search between steps; `active` is the cell being expanded, if any. */
  ghost predicate Inv(s: Search, colors: seq<seq<Color>>, n: int, start: Pos, end: Pos, expanded: seq<Pos>, active: set<Pos>)
    requires IsSquare(colors, n)
  {
    Scored(s, n, start) && Tree(colors, n, start, s.cameFrom, s.g) &&
    FrontierOk(s, n) && Covered(s, colors, n, end, expanded, active)
  }

  /**
   * The lock behind which `InvSealed` and `Between` keep their bodies: a
   * fact of the form `forall k :: Held(k) ==> P` is used only where a proof
   * mentions `Held(0)`, so the verifier does not unfold P elsewhere.
   */
  predicate Held(k: int) { k == 0 }

  /**
   * `Inv` behind the `Held` lock (see `Between`): a loop that only passes the
   * invariant from one lemma to the next states it in this form, so the
   * verifier does not re-check each of its conjuncts at every step.
   */
  ghost predicate InvSealed(s: Search, colors: seq<seq<Color>>, n: int, start: Pos, end: Pos, expanded: seq<Pos>, active: set<Pos>)
    requires IsSquare(colors, n)
  {
    forall k {:trigger Held(k)} :: Held(k) ==> Inv(s, colors, n, start, end, expanded, active)
  }

  /** The sealed invariant is the invariant. */
  lemma InvUnseal(s: Search, colors: seq<seq<Color>>, n: int, start: Pos, end: Pos, expanded: seq<Pos>, active: set<Pos>)
    requires IsSquare(colors, n)
    ensures InvSealed(s, colors, n, start, end, expanded, active) <==> Inv(s, colors, n, start, end, expanded, active)
  {
    assert Held(0);
  }

  /** The initial state satisfies the invariant. */
  lemma InitialKeeps(colors: seq<seq<Color>>, n: int, start: Pos, end: Pos)
    requires IsSquare(colors, n) && InBounds(n, start)
    ensures Inv(Initial(n, start, end), colors, n, start, end, [], {})
  {
    var s := Initial(n, start, end);
    assert s.openSet[0].cell == start;
    assert CellsOf(s.openSet) == {start};
  }

  /** Taking an entry out of the queue keeps the invariant, with its cell now the one being expanded. */
  lemma PopKeeps(s: Search, colors: seq<seq<Color>>, n: int, start: Pos, end: Pos, expanded: seq<Pos>, m: nat)
    requires IsSquare(colors, n) && m < |s.openSet|
    ensures Inv(s, colors, n, start, end, expanded, {}) ==>
      InBounds(n, s.openSet[m].cell) && Reached(s.g, s.openSet[m].cell) &&
      Inv(Pop(s, m), colors, n, start, end, expanded, {s.openSet[m].cell})
  {
    if Inv(s, colors, n, start, end, expanded, {}) {
      assert s.openSet[m].cell in s.hash;
      FrontierPop(s, n, m);
    }
  }

  /** Taking entry m out of the queue keeps the queue well formed. */
  lemma FrontierPop(s: Search, n: int, m: nat)
    requires FrontierOk(s, n) && m < |s.openSet|
    ensures FrontierOk(Pop(s, m), n)
  {
    var q := s.openSet;
    assert Pop(s, m).openSet == RemoveAt(q, m);
    CellsOfRemove(q, m);
    RemoveAtOrdered(q, m, s.count);
  }

  /** Removing an entry keeps the cells distinct and the counters increasing. */
  lemma RemoveAtOrdered(q: seq<Entry>, m: nat, count: nat)
    requires m < |q| && CountsIncrease(q, count)
    requires forall i, j :: 0 <= i < j < |q| ==> q[i].cell != q[j].cell
    ensures CountsIncrease(RemoveAt(q, m), count)
    ensures forall i, j :: 0 <= i < j < |RemoveAt(q, m)| ==> RemoveAt(q, m)[i].cell != RemoveAt(q, m)[j].cell
  {
    var r := RemoveAt(q, m);
    forall i, j | 0 <= i < j < |r|
      ensures r[i].cell != r[j].cell && r[i].count < r[j].count
    {
      var i', j' := if i < m then i else i + 1, if j < m then j else j + 1;
      assert r[i] == q[i'] && r[j] == q[j'] && i' < j';
    }
  }

  /** The queue without entry m. */
  function RemoveAt(q: seq<Entry>, m: nat): (r: seq<Entry>)
    requires m < |q|
    ensures |r| == |q| - 1
    ensures forall i :: 0 <= i < |r| ==> r[i] == q[if i < m then i else i + 1]
  {
    q[..m] + q[m + 1..]
  }

  /** Removing the only entry of a cell removes that cell. */
  lemma CellsOfRemove(q: seq<Entry>, m: nat)
    requires m < |q|
    requires forall i, j :: 0 <= i < j < |q| ==> q[i].cell != q[j].cell
    ensures CellsOf(RemoveAt(q, m)) == CellsOf(q) - {q[m].cell}
  {
    var r := RemoveAt(q, m);
    forall c | c in CellsOf(q) - {q[m].cell}
      ensures c in CellsOf(r)
    {
      var i :| 0 <= i < |q| && q[i].cell == c;
      if i < m {
        assert r[i] == q[i];
      } else {
        assert r[i - 1] == q[i];
      }
    }
  }

  /** Appending an entry adds its cell. */
  lemma CellsOfAppend(q: seq<Entry>, e: Entry)
    ensures CellsOf(q + [e]) == CellsOf(q) + {e.cell}
  {
    var q' := q + [e];
    assert forall k :: 0 <= k < |q| ==> q'[k] == q[k];
    assert q'[|q|] == e;
    forall c | c in CellsOf(q')
      ensures c in CellsOf(q) + {e.cell}
    {
      var i :| 0 <= i < |q'| && q'[i].cell == c;
      if i < |q| {
        assert q'[i] == q[i];
      }
    }
  }

  /**
   * Relaxing the edge from `cur` to one of its neighbours reaches that
   * neighbour and keeps the invariant.
   */
  lemma RelaxKeeps(s: Search, colors: seq<seq<Color>>, n: int, start: Pos, end: Pos, expanded: seq<Pos>, cur: Pos, nb: Pos,
                   r: Search)
    requires IsSquare(colors, n) && InBounds(n, cur) && Step(colors, n, cur, nb)
    requires Reached(s.g, cur) && nb in s.g
    requires r == Relax(s, cur, nb, end)
    ensures Reached(r.g, nb)
    ensures Inv(s, colors, n, start, end, expanded, {cur}) ==> Inv(r, colors, n, start, end, expanded, {cur})
  {
    var temp := Plus(s.g[cur], 1);
    if Inv(s, colors, n, start, end, expanded, {cur}) && Below(temp, s.g[nb]) {
      assert InBounds(n, nb);
      assert r.g == s.g[nb := temp] && r.cameFrom == s.cameFrom[nb := cur];
      TreeUpdate(colors, n, start, s.cameFrom, s.g, cur, nb);
      FrontierUpdate(s, r, n, nb);
      CoveredGrow(s, r, colors, n, end, expanded, {cur});
    }
  }

  /** Giving nb the predecessor `cur` and the score through it keeps the tree. */
  lemma TreeUpdate(colors: seq<seq<Color>>, n: int, start: Pos, cameFrom: map<Pos, Pos>, g: map<Pos, Score>, cur: Pos, nb: Pos)
    requires IsSquare(colors, n) && Tree(colors, n, start, cameFrom, g) && g[start] == Finite(0)
    requires InBounds(n, cur) && Reached(g, cur) && nb in g && Step(colors, n, cur, nb)
    requires Below(Plus(g[cur], 1), g[nb])
    ensures Tree(colors, n, start, cameFrom[nb := cur], g[nb := Plus(g[cur], 1)])
  {
    var cf, g' := cameFrom[nb := cur], g[nb := Plus(g[cur], 1)];
    assert nb != cur && nb != start && InBounds(n, nb);
    forall c | c in cf
      ensures InBounds(n, c) && InBounds(n, cf[c]) && Reached(g', c) && Reached(g', cf[c])
      ensures g'[cf[c]].v < g'[c].v
    {
      if c != nb {
        assert cf[c] == cameFrom[c];
      }
    }
    forall c | Reached(g', c) && c != start
      ensures c in cf
    {
      if c != nb {
        assert Reached(g, c);
      }
    }
  }

  /** The queue after a relaxation: the reached cell nb is queued, once. */
  lemma FrontierUpdate(s: Search, r: Search, n: int, nb: Pos)
    requires FrontierOk(s, n) && InBounds(n, nb) && Reached(r.g, nb)
    requires forall c :: Reached(s.g, c) ==> Reached(r.g, c)
    requires nb in s.hash ==> r.openSet == s.openSet && r.hash == s.hash && r.count == s.count
    requires nb !in s.hash ==> r.count == s.count + 1 && r.hash == s.hash + {nb} &&
                               |r.openSet| == |s.openSet| + 1 &&
                               r.openSet == s.openSet + [Entry(r.openSet[|s.openSet|].key, s.count + 1, nb)]
    ensures FrontierOk(r, n)
  {
    if nb !in s.hash {
      FrontierAppend(s, r, n, r.openSet[|s.openSet|]);
    }
  }

  /** The queue after appending a fresh entry for a cell not yet queued. */
  lemma FrontierAppend(s: Search, r: Search, n: int, e: Entry)
    requires FrontierOk(s, n) && InBounds(n, e.cell) && Reached(r.g, e.cell) && e.cell !in s.hash
    requires forall c :: Reached(s.g, c) ==> Reached(r.g, c)
    requires e.count == s.count + 1 && r.count == e.count
    requires r.hash == s.hash + {e.cell} && r.openSet == s.openSet + [e]
    ensures FrontierOk(r, n)
  {
    var q := s.openSet;
    CellsOfAppend(q, e);
    forall i, j | 0 <= i < j < |r.openSet|
      ensures r.openSet[i].cell != r.openSet[j].cell && r.openSet[i].count < r.openSet[j].count
    {
      assert r.openSet[i] == q[i];
      if j < |q| {
        assert r.openSet[j] == q[j];
      } else {
        assert q[i].cell in s.hash;
      }
    }
    forall i | 0 <= i < |r.openSet|
      ensures r.openSet[i].count <= r.count
    {
      if i < |q| {
        assert r.openSet[i] == q[i];
      }
    }
  }

  /** Growing the reached cells keeps coverage when each newly reached cell is queued. */
  lemma CoveredGrow(s: Search, r: Search, colors: seq<seq<Color>>, n: int, end: Pos, expanded: seq<Pos>, active: set<Pos>)
    requires IsSquare(colors, n) && Covered(s, colors, n, end, expanded, active)
    requires forall c :: Reached(s.g, c) ==> Reached(r.g, c)
    requires forall c :: Reached(r.g, c) ==> Reached(s.g, c) || c in r.hash
    requires s.hash <= r.hash
    ensures Covered(r, colors, n, end, expanded, active)
  {
    forall c | c in expanded
      ensures NeighborsReached(colors, n, r.g, c)
    {
    }
  }

  /** Once all neighbours of `cur` are reached, `cur` counts as expanded. */
  lemma FinishKeeps(s: Search, colors: seq<seq<Color>>, n: int, start: Pos, end: Pos, expanded: seq<Pos>, cur: Pos)
    requires IsSquare(colors, n) && Inv(s, colors, n, start, end, expanded, {cur})
    requires InBounds(n, cur) && cur != end && Reached(s.g, cur) && NeighborsReached(colors, n, s.g, cur)
    ensures Inv(s, colors, n, start, end, expanded + [cur], {})
  {
  }

  // ---------------------------------------------------------------------
  // What the invariant gives: soundness and completeness.
  // ---------------------------------------------------------------------

  /** Every reached cell is reachable from the start, by following predecessors back. */
  lemma {:induction false} ReachedReachable(colors: seq<seq<Color>>, n: int, start: Pos, cameFrom: map<Pos, Pos>, g: map<Pos, Score>, c: Pos)
    requires IsSquare(colors, n) && Tree(colors, n, start, cameFrom, g) && Reached(g, c)
    ensures Reachable(colors, n, start, c)
    decreases g[c].v
  {
    if c == start {
      assert IsWalk(colors, n, [start]);
    } else {
      ReachedReachable(colors, n, start, cameFrom, g, cameFrom[c]);
      ReachableStep(colors, n, start, cameFrom[c], c);
    }
  }

  /**
   * With the queue empty, every cell reachable from the start has been
   * expanded: the reached cells are all expanded, so they are closed under
   * steps, and a walk from the start never leaves them.
   */
  lemma Exhausted(s: Search, colors: seq<seq<Color>>, n: int, start: Pos, end: Pos, expanded: seq<Pos>)
    requires IsSquare(colors, n) && Inv(s, colors, n, start, end, expanded, {}) && s.openSet == []
    ensures forall c :: Reachable(colors, n, start, c) ==> c in expanded
    ensures !Reachable(colors, n, start, end)
  {
    forall c | Reachable(colors, n, start, c)
      ensures c in expanded
    {
      var w :| IsWalk(colors, n, w) && w[0] == start && w[|w| - 1] == c;
      WalkReached(s, colors, n, start, end, expanded, w, |w| - 1);
    }
  }

  /** With the queue empty, every cell of a walk from the start has been reached and expanded. */
  lemma {:induction false} WalkReached(s: Search, colors: seq<seq<Color>>, n: int, start: Pos, end: Pos, expanded: seq<Pos>, w: seq<Pos>, k: nat)
    requires IsSquare(colors, n) && Inv(s, colors, n, start, end, expanded, {}) && s.openSet == []
    requires IsWalk(colors, n, w) && w[0] == start && k < |w|
    ensures Reached(s.g, w[k]) && w[k] in expanded
  {
    if k > 0 {
      WalkReached(s, colors, n, start, end, expanded, w, k - 1);
      assert Step(colors, n, w[k - 1], w[k]);
    }
  }

  // ---------------------------------------------------------------------
  // The predecessor chain and `reconstruct_path`.
  // ---------------------------------------------------------------------

  /**
   * The cells `reconstruct_path` paints from c: c's predecessor, its
   * predecessor, and so on until a cell without one.
   */
  ghost function Ancestors(cameFrom: map<Pos, Pos>, g: map<Pos, Score>, n: int, c: Pos): (a: seq<Pos>)
    requires ParentsOk(cameFrom, g, n) && Reached(g, c)
    ensures AllInBounds(n, a)
    decreases g[c].v
  {
    if c in cameFrom then [cameFrom[c]] + Ancestors(cameFrom, g, n, cameFrom[c]) else []
  }

  /** Every ancestor is reached and scored strictly below the cell. */
  lemma {:induction false} AncestorsBelow(cameFrom: map<Pos, Pos>, g: map<Pos, Score>, n: int, c: Pos)
    requires ParentsOk(cameFrom, g, n) && Reached(g, c)
    ensures forall q :: q in Ancestors(cameFrom, g, n, c) ==> Reached(g, q) && g[q].v < g[c].v
    decreases g[c].v
  {
    if c in cameFrom {
      AncestorsBelow(cameFrom, g, n, cameFrom[c]);
    }
  }

  /**
   * A route from `end` back to `start`: each cell is a step away from the
   * next, and no cell repeats.
   */
  ghost predicate Route(colors: seq<seq<Color>>, n: int, start: Pos, end: Pos, path: seq<Pos>)
    requires IsSquare(colors, n)
  {
    |path| >= 1 && path[0] == end && path[|path| - 1] == start && AllInBounds(n, path) &&
    (forall k :: 0 <= k < |path| - 1 ==> Step(colors, n, path[k + 1], path[k])) &&
    NoDuplicates(path)
  }

  /** A route from its first cell back to the start, extended by one cell that steps onto it and is not on it. */
  lemma RouteCons(colors: seq<seq<Color>>, n: int, start: Pos, c: Pos, rest: seq<Pos>)
    requires IsSquare(colors, n) && |rest| >= 1 && Route(colors, n, start, rest[0], rest)
    requires InBounds(n, c) && Step(colors, n, rest[0], c) && c !in rest
    ensures Route(colors, n, start, c, [c] + rest)
  {
    var path := [c] + rest;
    forall k | 0 <= k < |path| - 1
      ensures Step(colors, n, path[k + 1], path[k])
    {
      if k > 0 {
        assert path[k] == rest[k - 1] && path[k + 1] == rest[k];
      }
    }
    forall i, j | 0 <= i < j < |path|
      ensures path[i] != path[j]
    {
      assert path[j] == rest[j - 1];
      if i > 0 {
        assert path[i] == rest[i - 1];
      } else {
        assert rest[j - 1] in rest;
      }
    }
  }

  /** In the predecessor tree a reached cell and its ancestors form a route back to the start. */
  lemma {:induction false} AncestorsRoute(colors: seq<seq<Color>>, n: int, start: Pos, cameFrom: map<Pos, Pos>, g: map<Pos, Score>, c: Pos)
    requires IsSquare(colors, n) && Tree(colors, n, start, cameFrom, g) && Reached(g, c)
    ensures Route(colors, n, start, c, [c] + Ancestors(cameFrom, g, n, c))
    decreases g[c].v
  {
    if c in cameFrom {
      var p := cameFrom[c];
      var rest := [p] + Ancestors(cameFrom, g, n, p);
      assert [c] + rest == [c] + Ancestors(cameFrom, g, n, c);
      AncestorsRoute(colors, n, start, cameFrom, g, p);
      AncestorsBelow(cameFrom, g, n, p);
      assert c !in rest;
      RouteCons(colors, n, start, c, rest);
    }
  }

  /**
   * What one call of the `draw` callback is made for: after expanding a
   * cell, or after painting one cell of the path. A frame names the cell
   * only, not the colours on screen, so it does not record that `algorithm`
   * draws before it paints the expanded cell closed.
   */
  datatype Frame = Expanded(cell: Pos) | Traced(cell: Pos)

  /** The frames drawn after expanding the given cells, in order. */
  function ExpansionFrames(cells: seq<Pos>): (frames: seq<Frame>)
    ensures |frames| == |cells| && forall k :: 0 <= k < |cells| ==> frames[k] == Expanded(cells[k])
  {
    seq(|cells|, k requires 0 <= k < |cells| => Expanded(cells[k]))
  }

  /** The frames drawn while painting the given cells of a path, in order. */
  function TraceFrames(cells: seq<Pos>): (frames: seq<Frame>)
    ensures |frames| == |cells| && forall k :: 0 <= k < |cells| ==> frames[k] == Traced(cells[k])
  {
    seq(|cells|, k requires 0 <= k < |cells| => Traced(cells[k]))
  }

  /** Painting one more cell of the path draws one more frame. */
  lemma TraceFramesSnoc(cells: seq<Pos>, c: Pos)
    ensures TraceFrames(cells + [c]) == TraceFrames(cells) + [Traced(c)]
  {
  }

  /** The colours with the cell p set to k. */
  function Recolor(colors: seq<seq<Color>>, p: Pos, k: Color): (r: seq<seq<Color>>)
    requires 0 <= p.0 < |colors| && 0 <= p.1 < |colors[p.0]|
  {
    colors[p.0 := colors[p.0][p.1 := k]]
  }

  /** The colours with every listed cell set to k, in order. */
  function PaintAll(colors: seq<seq<Color>>, n: int, cells: seq<Pos>, k: Color): (r: seq<seq<Color>>)
    requires IsSquare(colors, n) && AllInBounds(n, cells)
    ensures IsSquare(r, n)
  {
    if cells == [] then colors
    else
      var last := cells[|cells| - 1];
      assert last in cells;
      Recolor(PaintAll(colors, n, cells[..|cells| - 1], k), last, k)
  }

  /** Painting one more cell paints it over the rest. */
  lemma PaintAllSnoc(colors: seq<seq<Color>>, n: int, cells: seq<Pos>, q: Pos, k: Color)
    requires IsSquare(colors, n) && AllInBounds(n, cells) && InBounds(n, q)
    ensures AllInBounds(n, cells + [q])
    ensures PaintAll(colors, n, cells + [q], k) == Recolor(PaintAll(colors, n, cells, k), q, k)
  {
    assert (cells + [q])[..|cells|] == cells;
  }

  /** Painting a list of cells sets exactly those cells and leaves every other one as it was. */
  lemma {:induction false} PaintAllCells(colors: seq<seq<Color>>, n: int, cells: seq<Pos>, k: Color)
    requires IsSquare(colors, n) && AllInBounds(n, cells)
    ensures forall i, j :: 0 <= i < n && 0 <= j < n ==>
      PaintAll(colors, n, cells, k)[i][j] == if (i, j) in cells then k else colors[i][j]
  {
    if cells != [] {
      var init := cells[..|cells| - 1];
      assert cells == init + [cells[|cells| - 1]];
      PaintAllCells(colors, n, init, k);
    }
  }

  /** One `make_*` call on the node at p: p takes the colour, every other cell keeps its own. */
  method Paint(grid: seq<seq<Node>>, n: int, p: Pos, k: Color)
    requires IsGrid(grid, n) && InBounds(n, p)
    modifies {grid[p.0][p.1]}`color
    ensures Snapshot(grid) == Recolor(old(Snapshot(grid)), p, k)
  {
    var node := grid[p.0][p.1];
    match k {
      case White => node.Reset();
      case Red => node.MakeClosed();
      case Green => node.MakeOpen();
      case Black => node.MakeBarrier();
      case Orange => node.MakeStart();
      case Turquoise => node.MakeEnd();
      case Purple => node.MakePath();
    }
    SnapshotEquals(grid, Recolor(old(Snapshot(grid)), p, k));
  }

  /** One turn of `reconstruct_path`: the painted prefix of the ancestors grows by the predecessor. */
  lemma AncestorsStep(cameFrom: map<Pos, Pos>, g: map<Pos, Score>, n: int, current: Pos, painted: seq<Pos>, cell: Pos)
    requires ParentsOk(cameFrom, g, n) && Reached(g, current) && Reached(g, cell) && cell in cameFrom
    requires Ancestors(cameFrom, g, n, current) == painted + Ancestors(cameFrom, g, n, cell)
    ensures Ancestors(cameFrom, g, n, current) == (painted + [cameFrom[cell]]) + Ancestors(cameFrom, g, n, cameFrom[cell])
  {
    var parent := cameFrom[cell];
    var rest := Ancestors(cameFrom, g, n, parent);
    assert Ancestors(cameFrom, g, n, cell) == [parent] + rest;
    assert painted + ([parent] + rest) == (painted + [parent]) + rest;
  }

  /** Paint one more cell of a list being painted in order. */
  method PaintNext(grid: seq<seq<Node>>, n: int, ghost base: seq<seq<Color>>, ghost cells: seq<Pos>, p: Pos, k: Color)
    requires IsGrid(grid, n) && IsSquare(base, n) && AllInBounds(n, cells) && InBounds(n, p)
    requires Snapshot(grid) == PaintAll(base, n, cells, k)
    modifies NodeSet(grid)`color
    ensures AllInBounds(n, cells + [p]) && Snapshot(grid) == PaintAll(base, n, cells + [p], k)
  {
    Paint(grid, n, p, k);
    PaintAllSnoc(base, n, cells, p, k);
  }

  /**
   * `reconstruct_path`: follow the predecessors from `current`, painting each
   * predecessor as path and drawing once per cell. The cell it starts from is
   * not painted; the last one painted is the cell without a predecessor.
   */
  method ReconstructPath(grid: seq<seq<Node>>, n: int, cameFrom: map<Pos, Pos>, current: Pos, ghost g: map<Pos, Score>)
    returns (ghost frames: seq<Frame>)
    requires IsGrid(grid, n) && ParentsOk(cameFrom, g, n) && Reached(g, current)
    modifies NodeSet(grid)`color
    ensures frames == TraceFrames(Ancestors(cameFrom, g, n, current))
    ensures Snapshot(grid) == PaintAll(old(Snapshot(grid)), n, Ancestors(cameFrom, g, n, current), Purple)
  {
    var cell := current;
    ghost var painted: seq<Pos> := [];
    frames := [];
    while cell in cameFrom
      invariant Reached(g, cell)
      invariant Ancestors(cameFrom, g, n, current) == painted + Ancestors(cameFrom, g, n, cell)
      invariant AllInBounds(n, painted) && frames == TraceFrames(painted)
      invariant Snapshot(grid) == PaintAll(old(Snapshot(grid)), n, painted, Purple)
      decreases g[cell].v
    {
      AncestorsStep(cameFrom, g, n, current, painted, cell);
      TraceFramesSnoc(painted, cameFrom[cell]);
      cell := cameFrom[cell];
      PaintNext(grid, n, old(Snapshot(grid)), painted, cell, Purple);
      painted := painted + [cell];
      frames := frames + [Traced(cell)];
    }
    assert painted + [] == painted;
  }

  // ---------------------------------------------------------------------
  // Termination: every relaxation lowers a score.
  // ---------------------------------------------------------------------

  /** A list of every cell of the n x n grid (rows below i). */
  ghost function CellsBelow(n: int, i: nat): (cells: seq<Pos>)
  {
    if i == 0 then []
    else CellsBelow(n, i - 1) + seq(if n < 0 then 0 else n, j => (i - 1, j))
  }

  /** Every cell of the rows below i is listed. */
  lemma {:induction false} CellsBelowHas(n: int, i: nat, p: Pos)
    requires 0 <= p.0 < i && 0 <= p.1 < n
    ensures p in CellsBelow(n, i)
  {
    var row := seq(if n < 0 then 0 else n, j => (i - 1, j));
    assert CellsBelow(n, i) == CellsBelow(n, i - 1) + row;
    if p.0 < i - 1 {
      CellsBelowHas(n, i - 1, p);
    } else {
      assert row[p.1] == p;
    }
  }

  /** How many listed cells score infinity. */
  ghost function InfCount(g: map<Pos, Score>, cells: seq<Pos>): nat
  {
    if cells == [] then 0
    else (if cells[0] in g && g[cells[0]].Infinite? then 1 else 0) + InfCount(g, cells[1..])
  }

  /** The sum of the finite scores of the listed cells. */
  ghost function Weight(g: map<Pos, Score>, cells: seq<Pos>): nat
  {
    if cells == [] then 0
    else (if Reached(g, cells[0]) then g[cells[0]].v else 0) + Weight(g, cells[1..])
  }

  /**
   * Lowering one score either turns an infinity finite, so fewer listed cells
   * score infinity, or lowers a finite score, so the sum falls.
   */
  lemma {:induction false} LowerOne(g: map<Pos, Score>, cells: seq<Pos>, x: Pos, v: Score)
    requires x in g && Below(v, g[x])
    ensures InfCount(g[x := v], cells) <= InfCount(g, cells)
    ensures g[x].Infinite? && x in cells ==> InfCount(g[x := v], cells) < InfCount(g, cells)
    ensures g[x].Finite? ==> InfCount(g[x := v], cells) == InfCount(g, cells) &&
                             Weight(g[x := v], cells) + (if x in cells then 1 else 0) <= Weight(g, cells)
  {
    if cells != [] {
      LowerOne(g, cells[1..], x, v);
      assert x in cells ==> cells[0] == x || x in cells[1..];
    }
  }

  /** The measure of the main loop: scores at infinity, then twice the finite sum plus the queue length. */
  ghost predicate NoWorse(r: Search, s: Search, cells: seq<Pos>)
  {
    InfCount(r.g, cells) < InfCount(s.g, cells) ||
    (InfCount(r.g, cells) == InfCount(s.g, cells) &&
     2 * Weight(r.g, cells) + |r.openSet| <= 2 * Weight(s.g, cells) + |s.openSet|)
  }

  /** A relaxation never increases the measure: a push always comes with a lowered score. */
  lemma RelaxMeasure(s: Search, cur: Pos, nb: Pos, end: Pos, cells: seq<Pos>)
    requires cur in s.g && nb in s.g && nb in cells
    ensures NoWorse(Relax(s, cur, nb, end), s, cells)
  {
    var temp := Plus(s.g[cur], 1);
    if Below(temp, s.g[nb]) {
      LowerOne(s.g, cells, nb, temp);
    }
  }

  // ---------------------------------------------------------------------
  // What the search paints.
  // ---------------------------------------------------------------------

  /** Every cell whose colour differs from `before` has been reached. */
  ghost predicate ChangedReached(now: seq<seq<Color>>, before: seq<seq<Color>>, n: int, g: map<Pos, Score>)
    requires IsSquare(now, n) && IsSquare(before, n)
  {
    forall i, j :: 0 <= i < n && 0 <= j < n && now[i][j] != before[i][j] ==> Reached(g, (i, j))
  }

  /** Painting reached cells keeps every change on a reached cell. */
  lemma PaintReached(now: seq<seq<Color>>, before: seq<seq<Color>>, n: int, g: map<Pos, Score>, cells: seq<Pos>, k: Color)
    requires IsSquare(now, n) && IsSquare(before, n) && AllInBounds(n, cells)
    requires ChangedReached(now, before, n, g) && forall c :: c in cells ==> Reached(g, c)
    ensures ChangedReached(PaintAll(now, n, cells, k), before, n, g)
  {
    PaintAllCells(now, n, cells, k);
  }

  /** Reaching more cells keeps every change on a reached cell. */
  lemma ChangedGrow(now: seq<seq<Color>>, before: seq<seq<Color>>, n: int, g: map<Pos, Score>, g': map<Pos, Score>)
    requires IsSquare(now, n) && IsSquare(before, n) && ChangedReached(now, before, n, g)
    requires forall c :: Reached(g, c) ==> Reached(g', c)
    ensures ChangedReached(now, before, n, g')
  {
  }

  /** Every cell whose colour differs between `colors` and `now` is reachable from the start in `colors`. */
  ghost predicate ChangesReachable(now: seq<seq<Color>>, colors: seq<seq<Color>>, n: int, start: Pos)
    requires IsSquare(now, n) && IsSquare(colors, n)
  {
    forall i, j :: 0 <= i < n && 0 <= j < n && now[i][j] != colors[i][j] ==> Reachable(colors, n, start, (i, j))
  }

  /** With the predecessor tree in place, every changed cell is reachable from the start. */
  lemma ChangedReachable(now: seq<seq<Color>>, colors: seq<seq<Color>>, n: int, start: Pos, cameFrom: map<Pos, Pos>, g: map<Pos, Score>)
    requires IsSquare(now, n) && IsSquare(colors, n) && ChangedReached(now, colors, n, g)
    requires Tree(colors, n, start, cameFrom, g)
    ensures ChangesReachable(now, colors, n, start)
  {
    forall i, j | 0 <= i < n && 0 <= j < n && now[i][j] != colors[i][j]
      ensures Reachable(colors, n, start, (i, j))
    {
      ReachedReachable(colors, n, start, cameFrom, g, (i, j));
    }
  }

  // ---------------------------------------------------------------------
  // `algorithm`.
  // ---------------------------------------------------------------------

  /**
   * The search state after relaxing the edges from `cur` to the first k
   * cells of nbs, in list order.
   */
  ghost function RelaxFirst(s: Search, cur: Pos, nbs: seq<Pos>, k: nat, end: Pos): (r: Search)
    requires cur in s.g && k <= |nbs| && forall t :: 0 <= t < k ==> nbs[t] in s.g
    ensures r.g.Keys == s.g.Keys
  {
    if k == 0 then s else Relax(RelaxFirst(s, cur, nbs, k - 1, end), cur, nbs[k - 1], end)
  }

  /** The cells among the first k of nbs that joined the queue while being relaxed, in order. */
  ghost function JoinedFirst(s: Search, cur: Pos, nbs: seq<Pos>, k: nat, end: Pos): (q: seq<Pos>)
    requires cur in s.g && k <= |nbs| && forall t :: 0 <= t < k ==> nbs[t] in s.g
    ensures |q| <= k
  {
    if k == 0 then []
    else
      var r := RelaxFirst(s, cur, nbs, k - 1, end);
      var nb := nbs[k - 1];
      JoinedFirst(s, cur, nbs, k - 1, end) + Keep(Below(Plus(r.g[cur], 1), r.g[nb]) && nb !in r.hash, nb)
  }

  /** A relaxation keeps every reached cell reached and reaches the neighbour relaxed. */
  lemma RelaxReaches(s: Search, cur: Pos, nb: Pos, end: Pos)
    requires Reached(s.g, cur) && nb in s.g
    ensures Reached(Relax(s, cur, nb, end).g, nb)
    ensures forall c :: Reached(s.g, c) ==> Reached(Relax(s, cur, nb, end).g, c)
  {
  }

  /** After relaxing the edges to the first k neighbours, all of them are reached, and `cur` still is. */
  lemma {:induction false} RelaxFirstReaches(s: Search, cur: Pos, nbs: seq<Pos>, k: nat, end: Pos)
    requires Reached(s.g, cur) && k <= |nbs| && forall t :: 0 <= t < k ==> nbs[t] in s.g
    ensures Reached(RelaxFirst(s, cur, nbs, k, end).g, cur)
    ensures forall t :: 0 <= t < k ==> Reached(RelaxFirst(s, cur, nbs, k, end).g, nbs[t])
  {
    if k > 0 {
      RelaxFirstReaches(s, cur, nbs, k - 1, end);
      RelaxReaches(RelaxFirst(s, cur, nbs, k - 1, end), cur, nbs[k - 1], end);
    }
  }

  /** One more neighbour relaxed adds it to the joined cells exactly when it joins the queue. */
  lemma JoinedNext(s: Search, cur: Pos, nbs: seq<Pos>, k: nat, end: Pos)
    requires cur in s.g && k < |nbs| && forall t :: 0 <= t < k + 1 ==> nbs[t] in s.g
    ensures var r := RelaxFirst(s, cur, nbs, k, end);
      var enqueue := Below(Plus(r.g[cur], 1), r.g[nbs[k]]) && nbs[k] !in r.hash;
      JoinedFirst(s, cur, nbs, k + 1, end) == if enqueue then JoinedFirst(s, cur, nbs, k, end) + [nbs[k]]
                                             else JoinedFirst(s, cur, nbs, k, end)
  {
  }

  /**
   * From s to r the queue changed only by the cells q joining it: every
   * queued cell is reached, each was queued in s or is in q, each newly
   * reached cell is in q, and `cur` is not in q.
   */
  ghost predicate JoinsExactly(s: Search, r: Search, q: seq<Pos>, cur: Pos)
  {
    (forall c :: c in r.hash ==> Reached(r.g, c) && (c in s.hash || c in q)) &&
    (forall c :: Reached(r.g, c) && !Reached(s.g, c) ==> c in q) &&
    (forall c :: c in q ==> c != cur)
  }

  /**
   * One relaxation from `cur` to a different cell nb, when every queued cell
   * is reached: nb joins the queue exactly when `Relax` pushes it, and no
   * reached cell stops being reached.
   */
  lemma RelaxExactly(p: Search, cur: Pos, nb: Pos, end: Pos)
    requires cur in p.g && nb in p.g && nb != cur && forall c :: c in p.hash ==> Reached(p.g, c)
    ensures JoinsExactly(p, Relax(p, cur, nb, end), Keep(Below(Plus(p.g[cur], 1), p.g[nb]) && nb !in p.hash, nb), cur)
    ensures forall c :: Reached(p.g, c) ==> Reached(Relax(p, cur, nb, end).g, c)
  {
    var r := Relax(p, cur, nb, end);
    forall c | Reached(p.g, c) ensures Reached(r.g, c) { assert !Below(p.g[c], r.g[c]); }
  }

  /** Two stretches of relaxations, one after the other. */
  lemma JoinsThen(s: Search, p: Search, r: Search, q0: seq<Pos>, joined: seq<Pos>, cur: Pos)
    requires JoinsExactly(s, p, q0, cur) && JoinsExactly(p, r, joined, cur)
    requires forall c :: Reached(p.g, c) ==> Reached(r.g, c)
    ensures JoinsExactly(s, r, q0 + joined, cur)
  {
  }

  /** Relaxing the edges to the first k of nbs, none of them `cur`, when every queued cell is reached. */
  lemma {:induction false} JoinedFirstExactly(s: Search, cur: Pos, nbs: seq<Pos>, k: nat, end: Pos)
    requires cur in s.g && k <= |nbs| && forall t :: 0 <= t < k ==> nbs[t] in s.g && nbs[t] != cur
    requires forall c :: c in s.hash ==> Reached(s.g, c)
    ensures JoinsExactly(s, RelaxFirst(s, cur, nbs, k, end), JoinedFirst(s, cur, nbs, k, end), cur)
    decreases k, 1
  {
    if k > 0 {
      JoinedFirstNext(s, cur, nbs, k, end);
    }
  }

  /** The induction step: the k-th relaxation extends what the first k - 1 joined. */
  lemma {:induction false} JoinedFirstNext(s: Search, cur: Pos, nbs: seq<Pos>, k: nat, end: Pos)
    requires cur in s.g && 0 < k <= |nbs| && forall t :: 0 <= t < k ==> nbs[t] in s.g && nbs[t] != cur
    requires forall c :: c in s.hash ==> Reached(s.g, c)
    ensures JoinsExactly(s, RelaxFirst(s, cur, nbs, k, end), JoinedFirst(s, cur, nbs, k, end), cur)
    decreases k, 0
  {
    var j := k - 1;
    JoinedFirstExactly(s, cur, nbs, j, end);
    var p := RelaxFirst(s, cur, nbs, j, end);
    var q0 := JoinedFirst(s, cur, nbs, j, end);
    var nb := nbs[j];
    assert p.g.Keys == s.g.Keys;
    assert cur in p.g.Keys && nb in p.g.Keys;
    JoinsStep(s, p, q0, cur, nb, end);
    assert RelaxFirst(s, cur, nbs, k, end) == Relax(p, cur, nb, end);
    assert JoinedFirst(s, cur, nbs, k, end) == q0 + Keep(Below(Plus(p.g[cur], 1), p.g[nb]) && nb !in p.hash, nb);
  }

  /** One more relaxation, from `cur` to a different cell nb, after a stretch that joined the cells q0. */
  lemma JoinsStep(s: Search, p: Search, q0: seq<Pos>, cur: Pos, nb: Pos, end: Pos)
    requires cur in p.g && nb in p.g && nb != cur
    requires JoinsExactly(s, p, q0, cur) && forall c :: c in s.hash ==> Reached(s.g, c)
    ensures JoinsExactly(s, Relax(p, cur, nb, end), q0 + Keep(Below(Plus(p.g[cur], 1), p.g[nb]) && nb !in p.hash, nb), cur)
  {
    RelaxExactly(p, cur, nb, end);
    JoinsThen(s, p, Relax(p, cur, nb, end), q0, Keep(Below(Plus(p.g[cur], 1), p.g[nb]) && nb !in p.hash, nb), cur);
  }

  /** The search state once the edges to all the open neighbours of `cur` have been relaxed. */
  ghost function Relaxed(s: Search, colors: seq<seq<Color>>, n: int, cur: Pos, end: Pos): Search
    requires IsSquare(colors, n) && InBounds(n, cur) && forall p :: InBounds(n, p) ==> p in s.g
  {
    var adj := OpenNeighbors(colors, n, cur);
    RelaxFirst(s, cur, adj, |adj|, end)
  }

  /** The open neighbours of `cur` that joined the queue while being relaxed, in order. */
  ghost function Joined(s: Search, colors: seq<seq<Color>>, n: int, cur: Pos, end: Pos): seq<Pos>
    requires IsSquare(colors, n) && InBounds(n, cur) && forall p :: InBounds(n, p) ==> p in s.g
  {
    var adj := OpenNeighbors(colors, n, cur);
    JoinedFirst(s, cur, adj, |adj|, end)
  }

  /**
   * The neighbour loop of one expansion: relax the edge to every neighbour
   * of `current` in list order, and paint open each neighbour that joins the
   * queue.
   */
  method Expand(grid: seq<seq<Node>>, n: int, s: Search, current: Pos, end: Pos, ghost colors: seq<seq<Color>>)
    returns (r: Search, ghost queued: seq<Pos>)
    requires IsGrid(grid, n) && IsSquare(colors, n) && InBounds(n, current)
    requires grid[current.0][current.1].neighbors == NodesAt(grid, n, OpenNeighbors(colors, n, current))
    requires forall p :: InBounds(n, p) ==> p in s.g
    modifies NodeSet(grid)`color
    ensures r == Relaxed(s, colors, n, current, end) && queued == Joined(s, colors, n, current, end)
    ensures AllInBounds(n, queued) && Snapshot(grid) == PaintAll(old(Snapshot(grid)), n, queued, Green)
  {
    var nbs := grid[current.0][current.1].neighbors;
    ghost var adj := OpenNeighbors(colors, n, current);
    r := s;
    queued := [];
    for k := 0 to |nbs|
      invariant r == RelaxFirst(s, current, adj, k, end)
      invariant queued == JoinedFirst(s, current, adj, k, end)
      invariant AllInBounds(n, queued) && Snapshot(grid) == PaintAll(old(Snapshot(grid)), n, queued, Green)
    {
      NodesAtPos(grid, n, adj, k);
      var nb := nbs[k].GetPos();
      r, queued := RelaxNeighbor(grid, n, s, current, adj, k, nb, end, old(Snapshot(grid)), r, queued);
    }
  }

  /**
   * One turn of the neighbour loop: relax the edge from `cur` to its k-th
   * neighbour nb and, if nb joins the queue, paint it open.
   */
  method RelaxNeighbor(grid: seq<seq<Node>>, n: int, s: Search, cur: Pos, ghost adj: seq<Pos>, k: nat, nb: Pos, end: Pos,
                       ghost base: seq<seq<Color>>, r: Search, ghost queued: seq<Pos>)
    returns (r': Search, ghost queued': seq<Pos>)
    requires IsGrid(grid, n) && IsSquare(base, n) && AllInBounds(n, adj) && k < |adj| && nb == adj[k]
    requires cur in s.g && forall p :: InBounds(n, p) ==> p in s.g
    requires r == RelaxFirst(s, cur, adj, k, end) && queued == JoinedFirst(s, cur, adj, k, end)
    requires AllInBounds(n, queued) && Snapshot(grid) == PaintAll(base, n, queued, Green)
    modifies NodeSet(grid)`color
    ensures r' == RelaxFirst(s, cur, adj, k + 1, end) && queued' == JoinedFirst(s, cur, adj, k + 1, end)
    ensures AllInBounds(n, queued') && Snapshot(grid) == PaintAll(base, n, queued', Green)
  {
    JoinedNext(s, cur, adj, k, end);
    var enqueue := Below(Plus(r.g[cur], 1), r.g[nb]) && nb !in r.hash;
    r' := Relax(r, cur, nb, end);
    queued' := queued;
    if enqueue {
      PaintNext(grid, n, base, queued, nb, Green);
      queued' := queued + [nb];
    }
  }

  /**
   * What an expansion keeps between the state s it starts from and the
   * current state r: reached cells stay reached, queued cells stay queued,
   * the measure has not grown, and each cell painted open so far joined the
   * queue during this expansion and is not the start.
   */
  ghost predicate Progress(s: Search, r: Search, cells: seq<Pos>, start: Pos, queued: seq<Pos>)
  {
    (forall c :: Reached(s.g, c) ==> Reached(r.g, c)) &&
    s.hash <= r.hash && NoWorse(r, s, cells) &&
    forall c :: c in queued ==> c !in s.hash && c in r.hash && Reached(r.g, c) && c != start
  }

  /**
   * Relaxing the edges to the first k neighbours keeps the invariant, reaches
   * those neighbours and makes progress; after all of them every neighbour
   * of `current` is reached.
   */
  lemma ExpandKeeps(s: Search, colors: seq<seq<Color>>, n: int, start: Pos, end: Pos, expanded: seq<Pos>,
                    current: Pos, adj: seq<Pos>, cells: seq<Pos>, r: Search, queued: seq<Pos>)
    requires IsSquare(colors, n) && InBounds(n, current) && Reached(s.g, current)
    requires InvSealed(s, colors, n, start, end, expanded, {current})
    requires forall p :: InBounds(n, p) ==> p in s.g && p in cells
    requires adj == OpenNeighbors(colors, n, current)
    requires r == Relaxed(s, colors, n, current, end) && queued == Joined(s, colors, n, current, end)
    ensures InvSealed(r, colors, n, start, end, expanded, {current})
    ensures forall t :: 0 <= t < |adj| ==> Reached(r.g, adj[t])
    ensures Progress(s, r, cells, start, queued)
  {
    ExpandFirst(s, colors, n, start, end, expanded, current, adj, cells, |adj|);
    RelaxFirstReaches(s, current, adj, |adj|, end);
  }

  /** Relaxing the edges to the first k neighbours keeps the invariant and makes progress. */
  lemma {:induction false} ExpandFirst(s: Search, colors: seq<seq<Color>>, n: int, start: Pos, end: Pos, expanded: seq<Pos>,
                                       current: Pos, adj: seq<Pos>, cells: seq<Pos>, k: nat)
    requires IsSquare(colors, n) && InBounds(n, current) && Reached(s.g, current)
    requires InvSealed(s, colors, n, start, end, expanded, {current})
    requires forall p :: InBounds(n, p) ==> p in s.g && p in cells
    requires adj == OpenNeighbors(colors, n, current) && k <= |adj|
    ensures InvSealed(RelaxFirst(s, current, adj, k, end), colors, n, start, end, expanded, {current})
    ensures Progress(s, RelaxFirst(s, current, adj, k, end), cells, start, JoinedFirst(s, current, adj, k, end))
    decreases k, 1
  {
    if k > 0 {
      ExpandNext(s, colors, n, start, end, expanded, current, adj, cells, k);
    }
  }

  /** The induction step: relaxing the edge to the k-th neighbour as well. */
  lemma {:induction false} ExpandNext(s: Search, colors: seq<seq<Color>>, n: int, start: Pos, end: Pos, expanded: seq<Pos>,
                                      current: Pos, adj: seq<Pos>, cells: seq<Pos>, k: nat)
    requires IsSquare(colors, n) && InBounds(n, current) && Reached(s.g, current)
    requires InvSealed(s, colors, n, start, end, expanded, {current})
    requires forall p :: InBounds(n, p) ==> p in s.g && p in cells
    requires adj == OpenNeighbors(colors, n, current) && 0 < k <= |adj|
    ensures InvSealed(RelaxFirst(s, current, adj, k, end), colors, n, start, end, expanded, {current})
    ensures Progress(s, RelaxFirst(s, current, adj, k, end), cells, start, JoinedFirst(s, current, adj, k, end))
    decreases k, 0
  {
    var j := k - 1;
    ExpandFirst(s, colors, n, start, end, expanded, current, adj, cells, j);
    var p := RelaxFirst(s, current, adj, j, end);
    var q := JoinedFirst(s, current, adj, j, end);
    var nb := adj[j];
    InvUnseal(p, colors, n, start, end, expanded, {current});
    var p' := Relax(p, current, nb, end);
    var q' := q + Keep(Below(Plus(p.g[current], 1), p.g[nb]) && nb !in p.hash, nb);
    JoinedNext(s, current, adj, j, end);
    OpenNeighborStep(colors, n, current, j);
    RelaxKeeps(p, colors, n, start, end, expanded, current, nb, p');
    ProgressStep(s, p, cells, start, q, current, nb, end, p', q');
    InvUnseal(p', colors, n, start, end, expanded, {current});
    assert RelaxFirst(s, current, adj, k, end) == p';
  }

  /** Every open neighbour is one step away. */
  lemma OpenNeighborStep(colors: seq<seq<Color>>, n: int, p: Pos, t: nat)
    requires IsSquare(colors, n) && InBounds(n, p) && t < |OpenNeighbors(colors, n, p)|
    ensures Step(colors, n, p, OpenNeighbors(colors, n, p)[t])
  {
    OpenNeighborsExactly(colors, n, p);
    assert OpenNeighbors(colors, n, p)[t] in OpenNeighbors(colors, n, p);
  }

  /** After the whole neighbour loop every neighbour of `current` is reached. */
  lemma ExpandCovers(colors: seq<seq<Color>>, n: int, g: map<Pos, Score>, current: Pos)
    requires IsSquare(colors, n) && InBounds(n, current)
    requires var adj := OpenNeighbors(colors, n, current);
      forall t :: 0 <= t < |adj| ==> Reached(g, adj[t])
    ensures NeighborsReached(colors, n, g, current)
  {
    var adj := OpenNeighbors(colors, n, current);
    OpenNeighborsExactly(colors, n, current);
    forall d | Step(colors, n, current, d)
      ensures Reached(g, d)
    {
      assert d in adj;
      var t :| 0 <= t < |adj| && adj[t] == d;
    }
  }

  /** A relaxation extends the progress made so far in an expansion. */
  lemma ProgressStep(s: Search, r: Search, cells: seq<Pos>, start: Pos, queued: seq<Pos>, cur: Pos, nb: Pos, end: Pos,
                     r': Search, queued': seq<Pos>)
    requires cur in r.g && nb in r.g && nb in cells && start in r.g && r.g[start] == Finite(0)
    requires Progress(s, r, cells, start, queued)
    requires r' == Relax(r, cur, nb, end)
    requires queued' == queued + Keep(Below(Plus(r.g[cur], 1), r.g[nb]) && nb !in r.hash, nb)
    ensures Progress(s, r', cells, start, queued')
    ensures forall c :: Reached(r.g, c) ==> Reached(r'.g, c)
  {
    RelaxMeasure(r, cur, nb, end, cells);
  }

  /**
   * The colours the search leaves in `now`, against the colours `colors` it
   * started from: every changed cell has been reached, and the start keeps
   * its colour.
   */
  ghost predicate Painted(now: seq<seq<Color>>, colors: seq<seq<Color>>, n: int, s: Search, start: Pos)
    requires IsSquare(now, n) && IsSquare(colors, n) && InBounds(n, start)
  {
    ChangedReached(now, colors, n, s.g) && now[start.0][start.1] == colors[start.0][start.1] &&
    Shaded(now, n, s.g, s.hash, start)
  }

  /**
   * Every reached cell but the start shows open while it is in
   * `open_set_hash` and closed once it has left it.
   */
  ghost predicate Shaded(now: seq<seq<Color>>, n: int, g: map<Pos, Score>, hash: set<Pos>, start: Pos)
    requires IsSquare(now, n)
  {
    forall i, j :: 0 <= i < n && 0 <= j < n && Reached(g, (i, j)) && (i, j) != start ==>
      now[i][j] == if (i, j) in hash then Green else Red
  }

  /**
   * One expansion of `current`, which has left the queue, keeps the shading:
   * the cells that joined the queue are painted open and `current` closed,
   * unless it is the start.
   */
  lemma ShadeStep(before: seq<seq<Color>>, n: int, g0: map<Pos, Score>, hash0: set<Pos>, g: map<Pos, Score>,
                    hash: set<Pos>, start: Pos, current: Pos, queued: seq<Pos>)
    requires IsSquare(before, n) && InBounds(n, current) && AllInBounds(n, queued)
    requires Shaded(before, n, g0, hash0, start)
    requires forall c :: c in hash ==> (c in hash0 && c != current) || c in queued
    requires forall c :: c in hash0 && c != current ==> c in hash
    requires forall c :: c in queued ==> c in hash && c != current && c != start
    requires forall c :: Reached(g, c) && !Reached(g0, c) ==> c in queued
    ensures IsSquare(Closed(before, n, queued, current, start), n)
    ensures Shaded(Closed(before, n, queued, current, start), n, g, hash, start)
  {
    var after := Closed(before, n, queued, current, start);
    var painted := PaintAll(before, n, queued, Green);
    PaintAllCells(before, n, queued, Green);
    forall i, j | 0 <= i < n && 0 <= j < n && Reached(g, (i, j)) && (i, j) != start
      ensures after[i][j] == if (i, j) in hash then Green else Red
    {
      if (i, j) == current {
        assert current !in hash;
      } else {
        assert after[i][j] == painted[i][j];
      }
    }
  }

  /** Relaxing the edges to all the open neighbours of `cur`, when every queued cell is reached. */
  lemma JoinedExactly(p: Search, colors: seq<seq<Color>>, n: int, cur: Pos, end: Pos)
    requires IsSquare(colors, n) && InBounds(n, cur) && forall q :: InBounds(n, q) ==> q in p.g
    requires forall c :: c in p.hash ==> Reached(p.g, c)
    ensures JoinsExactly(p, Relaxed(p, colors, n, cur, end), Joined(p, colors, n, cur, end), cur)
  {
    var adj := OpenNeighbors(colors, n, cur);
    forall t | 0 <= t < |adj| ensures adj[t] in p.g && adj[t] != cur {
      OpenNeighborStep(colors, n, cur, t);
    }
    JoinedFirstExactly(p, cur, adj, |adj|, end);
  }

  /**
   * One turn of the main loop that does not reach the end keeps the shading:
   * the popped cell shows closed (unless it is the start), the cells that
   * joined the queue open, and every other reached cell as it did.
   */
  lemma ExpandShades(s: Search, m: nat, colors: seq<seq<Color>>, n: int, start: Pos, end: Pos,
                     before: seq<seq<Color>>, cells: seq<Pos>)
    requires IsSquare(colors, n) && IsSquare(before, n) && m < |s.openSet| && InBounds(n, s.openSet[m].cell)
    requires forall q :: InBounds(n, q) ==> q in s.g
    requires forall c :: c in s.hash ==> Reached(s.g, c)
    requires AllInBounds(n, Joined(Pop(s, m), colors, n, s.openSet[m].cell, end))
    requires Shaded(before, n, s.g, s.hash, start)
    requires Progress(Pop(s, m), Relaxed(Pop(s, m), colors, n, s.openSet[m].cell, end), cells, start,
                      Joined(Pop(s, m), colors, n, s.openSet[m].cell, end))
    ensures var cur := s.openSet[m].cell;
      var r := Relaxed(Pop(s, m), colors, n, cur, end);
      Shaded(Closed(before, n, Joined(Pop(s, m), colors, n, cur, end), cur, start), n, r.g, r.hash, start)
  {
    var cur := s.openSet[m].cell;
    var p := Pop(s, m);
    var r := Relaxed(p, colors, n, cur, end);
    var queued := Joined(p, colors, n, cur, end);
    JoinedExactly(p, colors, n, cur, end);
    ShadeStep(before, n, s.g, s.hash, r.g, r.hash, start, cur, queued);
  }

  /** Every cell that turned closed has been expanded, and is not the start. */
  ghost predicate ClosedExpanded(now: seq<seq<Color>>, colors: seq<seq<Color>>, n: int, start: Pos, expanded: seq<Pos>)
    requires IsSquare(now, n) && IsSquare(colors, n)
  {
    forall i, j :: 0 <= i < n && 0 <= j < n && now[i][j] == Red && colors[i][j] != Red ==>
      (i, j) in expanded && (i, j) != start
  }

  /** Every cell reachable from the start, other than the start, shows closed. */
  ghost predicate AllClosed(now: seq<seq<Color>>, colors: seq<seq<Color>>, n: int, start: Pos)
    requires IsSquare(now, n) && IsSquare(colors, n)
  {
    forall i, j :: 0 <= i < n && 0 <= j < n && Reachable(colors, n, start, (i, j)) && (i, j) != start ==>
      now[i][j] == Red
  }

  /** No cell shows closed in `now` that did not in `before`. */
  ghost predicate NoNewClosed(now: seq<seq<Color>>, before: seq<seq<Color>>, n: int)
    requires IsSquare(now, n) && IsSquare(before, n)
  {
    forall i, j :: 0 <= i < n && 0 <= j < n && now[i][j] == Red ==> before[i][j] == Red
  }

  /** Between turns, a cell shows closed but did not start closed only if it has been expanded. */
  lemma ShadedExpanded(s: Search, now: seq<seq<Color>>, colors: seq<seq<Color>>, n: int, start: Pos, end: Pos,
                       expanded: seq<Pos>)
    requires IsSquare(colors, n) && IsSquare(now, n) && Inv(s, colors, n, start, end, expanded, {})
    requires Painted(now, colors, n, s, start)
    ensures ClosedExpanded(now, colors, n, start, expanded)
  {
    forall i, j | 0 <= i < n && 0 <= j < n && now[i][j] == Red && colors[i][j] != Red
      ensures (i, j) in expanded && (i, j) != start
    {
      assert Reached(s.g, (i, j));
    }
  }

  /**
   * What holds between turns of the main loop: the invariant of the search,
   * and the colours `now` as `Painted` describes them.
   *
   * The body sits behind the `Held` lock, and `BetweenHolds` lifts it. The
   * main loop and the methods beside it state this as `Between(...) == true`:
   * the verifier then keeps it as one fact, matched against the lemma that
   * establishes it, instead of unfolding every conjunct again in a context
   * that holds the whole heap.
   */
  ghost predicate Between(s: Search, now: seq<seq<Color>>, colors: seq<seq<Color>>, n: int, start: Pos, end: Pos,
                          expanded: seq<Pos>)
    requires IsSquare(colors, n)
  {
    forall k {:trigger Held(k)} :: Held(k) ==>
      Inv(s, colors, n, start, end, expanded, {}) && IsSquare(now, n) && Painted(now, colors, n, s, start)
  }

  /** `Between` is `Inv` and `Painted` once the lock is lifted. */
  lemma BetweenHolds(s: Search, now: seq<seq<Color>>, colors: seq<seq<Color>>, n: int, start: Pos, end: Pos,
                          expanded: seq<Pos>)
    requires IsSquare(colors, n)
    ensures Between(s, now, colors, n, start, end, expanded) <==>
      Inv(s, colors, n, start, end, expanded, {}) && IsSquare(now, n) && Painted(now, colors, n, s, start)
  { assert Held(0); }

  /** Between turns every cell in the grid has a score and every queued cell is in the grid. */
  lemma BetweenBounds(s: Search, now: seq<seq<Color>>, colors: seq<seq<Color>>, n: int, start: Pos, end: Pos,
                          expanded: seq<Pos>)
    requires IsSquare(colors, n) && Between(s, now, colors, n, start, end, expanded) == true
    ensures forall q :: InBounds(n, q) ==> q in s.g
    ensures forall k :: 0 <= k < |s.openSet| ==> InBounds(n, s.openSet[k].cell)
    ensures InBounds(n, start)
  {
    BetweenHolds(s, now, colors, n, start, end, expanded);
    forall k | 0 <= k < |s.openSet|
      ensures InBounds(n, s.openSet[k].cell)
    {
      assert s.openSet[k].cell in s.hash;
    }
  }

  /** Before the first turn nothing is painted and the invariant holds. */
  lemma InitialBetween(colors: seq<seq<Color>>, n: int, start: Pos, end: Pos)
    requires IsSquare(colors, n) && InBounds(n, start)
    ensures Between(Initial(n, start, end), colors, colors, n, start, end, [])
  {
    InitialKeeps(colors, n, start, end);
    BetweenHolds(Initial(n, start, end), colors, colors, n, start, end, []);
  }

  /** The colours after one expansion: the queued cells painted open, then `cur` closed unless it is the start. */
  ghost function Closed(before: seq<seq<Color>>, n: int, queued: seq<Pos>, cur: Pos, start: Pos): seq<seq<Color>>
    requires IsSquare(before, n) && AllInBounds(n, queued) && InBounds(n, cur)
  {
    if cur == start then PaintAll(before, n, queued, Green) else Recolor(PaintAll(before, n, queued, Green), cur, Red)
  }

  /**
   * One turn of the main loop that does not reach the end: entry m leaves
   * the queue, the edges to the neighbours of its cell are relaxed, the
   * neighbours that joined the queue are painted open and the cell is
   * painted closed unless it is the start. What holds between turns holds
   * again with the cell expanded, and the measure has not grown.
   */
  lemma CloseKeeps(s: Search, m: nat, colors: seq<seq<Color>>, n: int, start: Pos, end: Pos,
                   expanded: seq<Pos>, before: seq<seq<Color>>)
    requires IsSquare(colors, n) && IsSquare(before, n) && m < |s.openSet| && s.openSet[m].cell != end
    requires InBounds(n, s.openSet[m].cell) && forall q :: InBounds(n, q) ==> q in s.g
    requires AllInBounds(n, Joined(Pop(s, m), colors, n, s.openSet[m].cell, end))
    ensures var cur := s.openSet[m].cell;
      var r := Relaxed(Pop(s, m), colors, n, cur, end);
      var after := Closed(before, n, Joined(Pop(s, m), colors, n, cur, end), cur, start);
      Between(s, before, colors, n, start, end, expanded) ==>
        Between(r, after, colors, n, start, end, expanded + [cur]) && NoWorse(r, Pop(s, m), CellsBelow(n, n))
  {
    var cells := CellsBelow(n, n);
    var current := s.openSet[m].cell;
    var p := Pop(s, m);
    var r := Relaxed(p, colors, n, current, end);
    var queued := Joined(p, colors, n, current, end);
    BetweenHolds(s, before, colors, n, start, end, expanded);
    BetweenHolds(r, Closed(before, n, queued, current, start), colors, n, start, end, expanded + [current]);
    if Between(s, before, colors, n, start, end, expanded) {
      PopKeeps(s, colors, n, start, end, expanded, m);
      var adj := OpenNeighbors(colors, n, current);
      forall q | InBounds(n, q) ensures q in cells { CellsBelowHas(n, n, q); }
      InvUnseal(p, colors, n, start, end, expanded, {current});
      ExpandKeeps(p, colors, n, start, end, expanded, current, adj, cells, r, queued);
      InvUnseal(r, colors, n, start, end, expanded, {current});
      ExpandCovers(colors, n, r.g, current);
      FinishKeeps(r, colors, n, start, end, expanded, current);
      ChangedGrow(before, colors, n, p.g, r.g);
      CloseColors(colors, n, r.g, start, current, queued, before);
      ExpandShades(s, m, colors, n, start, end, before, cells);
    }
  }

  /**
   * Painting the queued cells open and then `current` closed, unless it is
   * the start, keeps every colour change on a reached cell and leaves the
   * start's colour alone.
   */
  lemma CloseColors(colors: seq<seq<Color>>, n: int, g: map<Pos, Score>, start: Pos, current: Pos, queued: seq<Pos>,
                    before: seq<seq<Color>>)
    requires IsSquare(colors, n) && IsSquare(before, n) && InBounds(n, start) && InBounds(n, current)
    requires AllInBounds(n, queued) && Reached(g, current)
    requires forall c :: c in queued ==> Reached(g, c) && c != start
    requires ChangedReached(before, colors, n, g) && before[start.0][start.1] == colors[start.0][start.1]
    ensures var after := Closed(before, n, queued, current, start);
      IsSquare(after, n) && ChangedReached(after, colors, n, g) && after[start.0][start.1] == colors[start.0][start.1]
  {
    var after := Closed(before, n, queued, current, start);
    var painted := PaintAll(before, n, queued, Green);
    PaintReached(before, colors, n, g, queued, Green);
    PaintAllCells(before, n, queued, Green);
    assert (start.0, start.1) == start;
    assert painted[start.0][start.1] == colors[start.0][start.1];
    if current != start {
      forall i, j | 0 <= i < n && 0 <= j < n && after[i][j] != colors[i][j]
        ensures Reached(g, (i, j))
      {
        if (i, j) != current {
          assert after[i][j] == painted[i][j];
        }
      }
    }
  }

  /** One more expansion adds one frame. */
  lemma ExpansionFramesSnoc(cells: seq<Pos>, c: Pos)
    ensures ExpansionFrames(cells + [c]) == ExpansionFrames(cells) + [Expanded(c)]
  {
  }

  /** Every expanded cell is reachable from the start, and is not the end. */
  lemma ExpandedReachable(s: Search, colors: seq<seq<Color>>, n: int, start: Pos, end: Pos, expanded: seq<Pos>)
    requires IsSquare(colors, n) && Inv(s, colors, n, start, end, expanded, {})
    ensures forall c :: c in expanded ==> c != end && Reachable(colors, n, start, c)
  {
    forall c | c in expanded
      ensures Reachable(colors, n, start, c)
    {
      ReachedReachable(colors, n, start, s.cameFrom, s.g, c);
    }
  }

  /**
   * `algorithm(draw, grid, start, end)`, with the neighbour lists fresh for
   * the current colours. It answers whether the end is reachable from the
   * start; when it is, the route found is painted as path (the start
   * included) and the end repainted as end. The end is never expanded, and
   * every expanded cell is reachable; when the queue runs out every
   * reachable cell has been expanded. Only cells reachable from the start
   * change colour, and the start does only when a route is painted. A cell
   * newly shown closed is an expanded cell other than the start, and when
   * the queue runs out every reachable cell but the start shows closed. The
   * trace holds one frame per expansion, then one per cell of the route
   * painted.
   */
  method Algorithm(grid: seq<seq<Node>>, start: Pos, end: Pos)
    returns (found: bool, ghost expanded: seq<Pos>, ghost path: seq<Pos>, ghost trace: seq<Frame>)
    requires IsGrid(grid, |grid|) && NeighborsFresh(grid, |grid|)
    requires InBounds(|grid|, start) && InBounds(|grid|, end)
    modifies NodeSet(grid)`color
    ensures found <==> Reachable(old(Snapshot(grid)), |grid|, start, end)
    ensures found ==> Route(old(Snapshot(grid)), |grid|, start, end, path)
    ensures forall c :: c in expanded ==> c != end && Reachable(old(Snapshot(grid)), |grid|, start, c)
    ensures !found ==> forall c :: Reachable(old(Snapshot(grid)), |grid|, start, c) ==> c in expanded
    ensures found ==> grid[end.0][end.1].color == Turquoise &&
                      forall c :: c in path && c != end ==> grid[c.0][c.1].color == Purple
    ensures !found ==> grid[start.0][start.1].color == old(grid[start.0][start.1].color)
    ensures ChangesReachable(Snapshot(grid), old(Snapshot(grid)), |grid|, start)
    ensures ClosedExpanded(Snapshot(grid), old(Snapshot(grid)), |grid|, start, expanded)
    ensures !found ==> AllClosed(Snapshot(grid), old(Snapshot(grid)), |grid|, start)
    ensures found ==> trace == ExpansionFrames(expanded) + TraceFrames(path[1..])
    ensures !found ==> trace == ExpansionFrames(expanded)
  {
    var n := |grid|;
    ghost var colors := Snapshot(grid);
    FreshAre(grid, n);
    var s, m;
    s := Initial(n, start, end);
    InitialBetween(colors, n, start, end);
    s, m, found, expanded, trace := Run(grid, n, s, start, end, colors);
    if found {
      ghost var frames;
      path, frames := Found(grid, n, s, m, start, end, colors, expanded);
      trace := trace + frames;
    } else {
      path := [];
      Unfound(grid, n, s, start, end, colors, expanded);
    }
  }

  /**
   * The main loop of `algorithm`, up to the turn that pops the end: take
   * the entry with the least key from the queue and expand its cell, until
   * the queue runs out or the least entry is the end's.
   */
  method Run(grid: seq<seq<Node>>, n: int, s0: Search, start: Pos, end: Pos, ghost colors: seq<seq<Color>>)
    returns (s: Search, m: nat, found: bool, ghost expanded: seq<Pos>, ghost trace: seq<Frame>)
    requires IsGrid(grid, n) && IsSquare(colors, n) && NeighborsAre(grid, n, colors)
    requires Between(s0, Snapshot(grid), colors, n, start, end, []) == true
    modifies NodeSet(grid)`color
    ensures Between(s, Snapshot(grid), colors, n, start, end, expanded) == true
    ensures found ==> m < |s.openSet| && s.openSet[m].cell == end
    ensures !found ==> s.openSet == []
    ensures trace == ExpansionFrames(expanded)
  {
    s := s0;
    expanded, trace := [], [];
    while s.openSet != []
      invariant Between(s, Snapshot(grid), colors, n, start, end, expanded) == true
      invariant trace == ExpansionFrames(expanded)
      invariant NeighborsAre(grid, n, colors) == true
      decreases InfCount(s.g, CellsBelow(n, n)), 2 * Weight(s.g, CellsBelow(n, n)) + |s.openSet|
    {
      BetweenBounds(s, Snapshot(grid), colors, n, start, end, expanded);
      m := MinIndex(s.openSet);
      var current := s.openSet[m].cell;
      if current == end {
        found := true;
        return;
      }
      ghost var prev, before := s, Snapshot(grid);
      s := Visit(grid, n, s, m, start, end, colors);
      CloseKeeps(prev, m, colors, n, start, end, expanded, before);
      trace := trace + [Expanded(current)];
      ExpansionFramesSnoc(expanded, current);
      expanded := expanded + [current];
    }
    found, m := false, 0;
  }

  /**
   * One turn of the main loop that does not reach the end: entry m leaves
   * the queue, the edges to the neighbours of its cell are relaxed, those
   * that joined the queue are painted open, and the cell is painted closed
   * unless it is the start.
   */
  method Visit(grid: seq<seq<Node>>, n: int, s: Search, m: nat, start: Pos, end: Pos,
               ghost colors: seq<seq<Color>>)
    returns (r: Search)
    requires IsGrid(grid, n) && IsSquare(colors, n) && m < |s.openSet| && InBounds(n, s.openSet[m].cell)
    requires forall q :: InBounds(n, q) ==> q in s.g
    requires NeighborsAre(grid, n, colors) == true
    modifies NodeSet(grid)`color
    ensures r == Relaxed(Pop(s, m), colors, n, s.openSet[m].cell, end)
    ensures AllInBounds(n, Joined(Pop(s, m), colors, n, s.openSet[m].cell, end))
    ensures Snapshot(grid) ==
      Closed(old(Snapshot(grid)), n, Joined(Pop(s, m), colors, n, s.openSet[m].cell, end), s.openSet[m].cell, start)
  {
    var current := s.openSet[m].cell;
    ghost var queued;
    r, queued := Expand(grid, n, Pop(s, m), current, end, colors);
    if current != start {
      Paint(grid, n, current, Red);
    }
  }

  /**
   * The turn of the main loop that pops the end: the end is reachable, the
   * route back through the predecessors is painted as path and the end as
   * end, and every colour change is on a reachable cell.
   */
  method Found(grid: seq<seq<Node>>, n: int, s: Search, m: nat, start: Pos, end: Pos,
               ghost colors: seq<seq<Color>>, ghost expanded: seq<Pos>)
    returns (ghost path: seq<Pos>, ghost frames: seq<Frame>)
    requires IsGrid(grid, n) && IsSquare(colors, n) && InBounds(n, end)
    requires m < |s.openSet| && s.openSet[m].cell == end
    requires Between(s, Snapshot(grid), colors, n, start, end, expanded) == true
    modifies NodeSet(grid)`color
    ensures Route(colors, n, start, end, path) && Reachable(colors, n, start, end)
    ensures forall c :: c in expanded ==> c != end && Reachable(colors, n, start, c)
    ensures grid[end.0][end.1].color == Turquoise && forall c :: c in path && c != end ==> grid[c.0][c.1].color == Purple
    ensures ChangesReachable(Snapshot(grid), colors, n, start)
    ensures ClosedExpanded(Snapshot(grid), colors, n, start, expanded)
    ensures frames == TraceFrames(path[1..])
  {
    BetweenHolds(s, Snapshot(grid), colors, n, start, end, expanded);
    ShadedExpanded(s, Snapshot(grid), colors, n, start, end, expanded);
    ghost var before := Snapshot(grid);
    PopKeeps(s, colors, n, start, end, expanded, m);
    ExpandedReachable(s, colors, n, start, end, expanded);
    var p := Pop(s, m);
    path, frames := ShowRoute(grid, n, p, end, colors);
    FoundRoute(colors, n, start, p.cameFrom, p.g, end);
    ChangedReachable(Snapshot(grid), colors, n, start, p.cameFrom, p.g);
    assert ClosedExpanded(before, colors, n, start, expanded) && NoNewClosed(Snapshot(grid), before, n);
  }

  /**
   * The branch that finds the end: paint the route back from the end as
   * path, then the end itself as end. Every colour change stays on a reached
   * cell.
   */
  method ShowRoute(grid: seq<seq<Node>>, n: int, s: Search, end: Pos, ghost colors: seq<seq<Color>>)
    returns (ghost path: seq<Pos>, ghost frames: seq<Frame>)
    requires IsGrid(grid, n) && IsSquare(colors, n) && ParentsOk(s.cameFrom, s.g, n)
    requires InBounds(n, end) && Reached(s.g, end) && ChangedReached(Snapshot(grid), colors, n, s.g)
    modifies NodeSet(grid)`color
    ensures path == [end] + Ancestors(s.cameFrom, s.g, n, end) && frames == TraceFrames(path[1..])
    ensures AllInBounds(n, path) && grid[end.0][end.1].color == Turquoise
    ensures forall c :: c in path && c != end ==> grid[c.0][c.1].color == Purple
    ensures ChangedReached(Snapshot(grid), colors, n, s.g)
    ensures IsSquare(old(Snapshot(grid)), n) && NoNewClosed(Snapshot(grid), old(Snapshot(grid)), n)
  {
    ghost var anc := Ancestors(s.cameFrom, s.g, n, end);
    path := [end] + anc;
    assert path[1..] == anc;
    ghost var before := Snapshot(grid);
    ghost var after := Recolor(PaintAll(before, n, anc, Purple), end, Turquoise);
    FoundColors(colors, before, n, s.cameFrom, s.g, end, after);
    frames := ReconstructPath(grid, n, s.cameFrom, end, s.g);
    Paint(grid, n, end, Turquoise);
    assert Snapshot(grid) == after;
    RouteShown(grid, n, end, anc, after);
  }

  /** The grid whose colours are `after` shows the end as end and the cells before it as path. */
  lemma RouteShown(grid: seq<seq<Node>>, n: int, end: Pos, anc: seq<Pos>, after: seq<seq<Color>>)
    requires IsGrid(grid, n) && InBounds(n, end) && AllInBounds(n, anc) && Snapshot(grid) == after
    requires after[end.0][end.1] == Turquoise && forall c :: c in anc ==> after[c.0][c.1] == Purple
    ensures grid[end.0][end.1].color == Turquoise
    ensures forall c :: c in [end] + anc && c != end ==> grid[c.0][c.1].color == Purple
  {
    forall c | c in [end] + anc && c != end
      ensures grid[c.0][c.1].color == Purple
    {
      assert c in anc;
    }
  }

  /** A reached end and its ancestors form a route of the grid from the start. */
  lemma FoundRoute(colors: seq<seq<Color>>, n: int, start: Pos, cameFrom: map<Pos, Pos>, g: map<Pos, Score>, end: Pos)
    requires IsSquare(colors, n) && Tree(colors, n, start, cameFrom, g) && Reached(g, end)
    ensures Route(colors, n, start, end, [end] + Ancestors(cameFrom, g, n, end))
    ensures Reachable(colors, n, start, end)
  {
    ReachedReachable(colors, n, start, cameFrom, g, end);
    AncestorsRoute(colors, n, start, cameFrom, g, end);
  }

  /**
   * After painting the ancestors of the end as path and the end as end, the
   * end shows as end, its ancestors as path, and every change is still on a
   * reached cell.
   */
  lemma FoundColors(colors: seq<seq<Color>>, before: seq<seq<Color>>, n: int, cameFrom: map<Pos, Pos>, g: map<Pos, Score>,
                    end: Pos, after: seq<seq<Color>>)
    requires IsSquare(colors, n) && IsSquare(before, n) && ParentsOk(cameFrom, g, n)
    requires InBounds(n, end) && Reached(g, end) && ChangedReached(before, colors, n, g)
    requires after == Recolor(PaintAll(before, n, Ancestors(cameFrom, g, n, end), Purple), end, Turquoise)
    ensures IsSquare(after, n) && after[end.0][end.1] == Turquoise
    ensures forall c :: c in Ancestors(cameFrom, g, n, end) ==> after[c.0][c.1] == Purple
    ensures ChangedReached(after, colors, n, g)
    ensures NoNewClosed(after, before, n)
  {
    var anc := Ancestors(cameFrom, g, n, end);
    AncestorsBelow(cameFrom, g, n, end);
    var painted := PaintAll(before, n, anc, Purple);
    PaintAllCells(before, n, anc, Purple);
    forall i, j | 0 <= i < n && 0 <= j < n
      ensures after[i][j] == if (i, j) == end then Turquoise else if (i, j) in anc then Purple else before[i][j]
    {
      if (i, j) != end {
        assert after[i][j] == painted[i][j];
      }
    }
  }

  /**
   * The queue has run out: the end is unreachable, the expanded cells are
   * exactly the reachable ones, the start keeps its colour and every colour
   * change is on a reachable cell.
   */
  lemma Unfound(grid: seq<seq<Node>>, n: int, s: Search, start: Pos, end: Pos, colors: seq<seq<Color>>,
                expanded: seq<Pos>)
    requires IsGrid(grid, n) && IsSquare(colors, n) && InBounds(n, start) && s.openSet == []
    requires Between(s, Snapshot(grid), colors, n, start, end, expanded) == true
    ensures !Reachable(colors, n, start, end)
    ensures forall c :: Reachable(colors, n, start, c) <==> c in expanded
    ensures forall c :: c in expanded ==> c != end
    ensures grid[start.0][start.1].color == colors[start.0][start.1]
    ensures ChangesReachable(Snapshot(grid), colors, n, start)
    ensures ClosedExpanded(Snapshot(grid), colors, n, start, expanded)
    ensures AllClosed(Snapshot(grid), colors, n, start)
  {
    BetweenHolds(s, Snapshot(grid), colors, n, start, end, expanded);
    ShadedExpanded(s, Snapshot(grid), colors, n, start, end, expanded);
    assert s.hash == {};
    Exhausted(s, colors, n, start, end, expanded);
    ExpandedReachable(s, colors, n, start, end, expanded);
    ChangedReachable(Snapshot(grid), colors, n, start, s.cameFrom, s.g);
  }
}
