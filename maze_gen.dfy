/**
 * The maze generator of the grid maze game (`generate_maze` with its nested
 * `carve`): a grid of walls (1) in which a depth-first carve from cell
 * (1, 1) opens (0) cells two steps apart, each time opening the cell in
 * between, and finally opens the cell (width - 2, height - 2).
 *
 * A maze is an `array2<int>` indexed `maze[y, x]`, as the source's list of
 * rows. The shuffle `carve` draws for each call is supplied by `order`,
 * which gives the direction order used at each cell; `carve` runs at most
 * once per cell, so this is one shuffle per call.
 */
module MazeGen {
  import opened Basics

  /** A cell of the maze, column `x` and row `y`. */
  datatype Cell = Cell(x: int, y: int)
  /** A unit step. */
  datatype Step = Step(dx: int, dy: int)

  const Up := Step(0, -1)
  const Down := Step(0, 1)
  const Left := Step(-1, 0)
  const Right := Step(1, 0)
  /** The direction list `carve` shuffles. */
  const Steps: seq<Step> := [Up, Down, Left, Right]
  /** The cell the carve starts from, which is also the player's start. */
  const Start := Cell(1, 1)

  /** `order` is some arrangement of the four directions. */
  predicate IsShuffle(order: seq<Step>) {
    multiset(order) == multiset(Steps)
  }

  lemma ShuffleStep(order: seq<Step>, i: int)
    requires IsShuffle(order) && 0 <= i < |order|
    ensures order[i] == Up || order[i] == Down || order[i] == Left || order[i] == Right
  {
    assert order[i] in multiset(order);
  }

  lemma ShuffleHas(order: seq<Step>, d: Step) returns (k: int)
    requires IsShuffle(order) && d in Steps
    ensures 0 <= k < |order| && order[k] == d
  {
    assert d in multiset(order);
    k :| 0 <= k < |order| && order[k] == d;
  }

  function Move(c: Cell, d: Step, k: int): Cell {
    Cell(c.x + d.dx * k, c.y + d.dy * k)
  }

  predicate Odd(n: int) {
    n % 2 == 1
  }

  /** Cells one unit step apart. */
  predicate Adjacent(a: Cell, b: Cell) {
    Abs(a.x - b.x) + Abs(a.y - b.y) == 1
  }

  /** The largest odd number below `n`: the last column (row) a carve can reach. */
  function LastOpen(n: int): int {
    if Odd(n) then n - 2 else n - 1
  }

  /** A cell with both coordinates odd: where a carve can stand. */
  predicate OddCell(c: Cell) {
    Odd(c.x) && Odd(c.y)
  }

  /** A cell with both coordinates even: a carve never opens one. */
  predicate Pillar(c: Cell) {
    !Odd(c.x) && !Odd(c.y)
  }

  /** Off row 0 and column 0, and no further out than a carve reaches. */
  predicate InsideWalls(c: Cell, width: int, height: int) {
    0 < c.x <= LastOpen(width) && 0 < c.y <= LastOpen(height)
  }

  /** The bounds test `carve` applies to a target: 0 < x < width and 0 < y < height. */
  predicate InBounds(c: Cell, width: int, height: int) {
    0 < c.x < width && 0 < c.y < height
  }

  /** Every cell a carve can target: both coordinates odd and within bounds. */
  function Targets(width: int, height: int): set<Cell> {
    set x, y | 0 < x < width && 0 < y < height && OddCell(Cell(x, y)) :: Cell(x, y)
  }

  /** The cells of `s` with both coordinates odd. */
  function OddCells(s: set<Cell>): set<Cell> {
    set c | c in s && OddCell(c)
  }

  /** A target out of bounds, or already open. */
  predicate Reached(n: Cell, open: set<Cell>, width: int, height: int) {
    InBounds(n, width, height) ==> n in open
  }

  /** Every target two steps away from `c` is open: `c` has nothing left to carve. */
  predicate Settled(c: Cell, open: set<Cell>, width: int, height: int) {
    && Reached(Move(c, Up, 2), open, width, height)
    && Reached(Move(c, Down, 2), open, width, height)
    && Reached(Move(c, Left, 2), open, width, height)
    && Reached(Move(c, Right, 2), open, width, height)
  }

  /** `p` is a walk through the cells of `s`, one unit step at a time. */
  ghost predicate IsPath(p: seq<Cell>, s: set<Cell>) {
    && |p| > 0
    && (forall i :: 0 <= i < |p| ==> p[i] in s)
    && (forall i :: 0 < i < |p| ==> Adjacent(p[i - 1], p[i]))
  }

  /** Some walk through `s` leads from `a` to `b`. */
  ghost predicate Linked(s: set<Cell>, a: Cell, b: Cell) {
    exists p :: IsPath(p, s) && p[0] == a && p[|p| - 1] == b
  }

  /** Every cell of `s` is linked to Start through `s`. */
  ghost predicate Connected(s: set<Cell>) {
    forall c {:trigger Linked(s, Start, c)} :: c in s ==> Linked(s, Start, c)
  }

  /**
   * `parent` and `depth` span `s` from Start: every other cell of `s` has a
   * neighbour in `s` as parent, one level closer to Start.
   */
  ghost predicate Tree(s: set<Cell>, parent: map<Cell, Cell>, depth: map<Cell, nat>) {
    && Start in s
    && forall c :: c in s ==>
         && c in depth
         && (c != Start ==>
               c in parent && parent[c] in s && Adjacent(parent[c], c) && parent[c] in depth
               && depth[parent[c]] < depth[c])
  }

  /** The walk from Start down the tree to `c`. */
  ghost function TreePath(s: set<Cell>, parent: map<Cell, Cell>, depth: map<Cell, nat>, c: Cell): seq<Cell>
    requires Tree(s, parent, depth) && c in s
    decreases depth[c]
  {
    if c == Start then [Start] else TreePath(s, parent, depth, parent[c]) + [c]
  }

  lemma {:induction false} TreePathWalks(s: set<Cell>, parent: map<Cell, Cell>, depth: map<Cell, nat>, c: Cell)
    requires Tree(s, parent, depth) && c in s
    ensures var p := TreePath(s, parent, depth, c);
      IsPath(p, s) && p[0] == Start && p[|p| - 1] == c
    decreases depth[c]
  {
    if c != Start {
      TreePathWalks(s, parent, depth, parent[c]);
    }
  }

  /** A spanning tree links every cell to Start. */
  lemma TreeLinks(s: set<Cell>, parent: map<Cell, Cell>, depth: map<Cell, nat>)
    requires Tree(s, parent, depth)
    ensures Connected(s)
  {
    forall c | c in s
      ensures Linked(s, Start, c)
    {
      TreePathWalks(s, parent, depth, c);
    }
  }

  /**
   * A set of settled cells that holds Start and every odd open cell reaches
   * every target: the odd cells form one grid connected by two-cell steps.
   */
  lemma AllTargetsReached(done: set<Cell>, open: set<Cell>, width: int, height: int)
    requires Start in done
    requires forall c {:trigger Settled(c, open, width, height)} :: c in done ==> Settled(c, open, width, height)
    requires forall c :: c in open && OddCell(c) ==> c in done
    ensures Targets(width, height) <= done
  {
    forall c | c in Targets(width, height)
      ensures c in done
    {
      ColumnReached(done, open, width, height, c.x, c.y);
    }
  }

  lemma {:induction false} RowReached(done: set<Cell>, open: set<Cell>, width: int, height: int, x: int)
    requires Start in done
    requires forall c {:trigger Settled(c, open, width, height)} :: c in done ==> Settled(c, open, width, height)
    requires forall c :: c in open && OddCell(c) ==> c in done
    requires 0 < x < width && Odd(x) && 1 < height
    ensures Cell(x, 1) in done
    decreases x
  {
    if x > 1 {
      assert Odd(x - 2);
      RowReached(done, open, width, height, x - 2);
      var prev := Cell(x - 2, 1);
      assert Settled(prev, open, width, height);
      assert Move(prev, Right, 2) == Cell(x, 1);
      assert Cell(x, 1) in open;
    }
  }

  lemma {:induction false} ColumnReached(done: set<Cell>, open: set<Cell>, width: int, height: int, x: int, y: int)
    requires Start in done
    requires forall c {:trigger Settled(c, open, width, height)} :: c in done ==> Settled(c, open, width, height)
    requires forall c :: c in open && OddCell(c) ==> c in done
    requires 0 < x < width && Odd(x) && 0 < y < height && Odd(y)
    ensures Cell(x, y) in done
    decreases y
  {
    if y == 1 {
      RowReached(done, open, width, height, x);
    } else {
      assert Odd(y - 2);
      ColumnReached(done, open, width, height, x, y - 2);
      var prev := Cell(x, y - 2);
      assert Settled(prev, open, width, height);
      assert Move(prev, Down, 2) == Cell(x, y);
      assert Cell(x, y) in open;
    }
  }

  /** A cell visited in all four directions of a shuffle is settled. */
  lemma SettledByShuffle(c: Cell, dirs: seq<Step>, open: set<Cell>, width: int, height: int)
    requires IsShuffle(dirs)
    requires forall k :: 0 <= k < |dirs| ==> Reached(Move(c, dirs[k], 2), open, width, height)
    ensures Settled(c, open, width, height)
  {
    var u := ShuffleHas(dirs, Up);
    var d := ShuffleHas(dirs, Down);
    var l := ShuffleHas(dirs, Left);
    var r := ShuffleHas(dirs, Right);
  }

  /** An odd cell within bounds is a target. */
  lemma TargetIn(c: Cell, width: int, height: int)
    requires InBounds(c, width, height) && OddCell(c)
    ensures c in Targets(width, height)
  {
    assert c == Cell(c.x, c.y);
  }

  /**
   * From an odd cell inside the walls, the cell one step away is a passage
   * (neither odd nor a pillar) and the in-bounds target two steps away is
   * odd; both stay inside the walls.
   */
  lemma StepInside(c: Cell, d: Step, width: int, height: int)
    requires InsideWalls(c, width, height) && OddCell(c)
    requires d == Up || d == Down || d == Left || d == Right
    requires InBounds(Move(c, d, 2), width, height)
    ensures InsideWalls(Move(c, d, 1), width, height) && !OddCell(Move(c, d, 1)) && !Pillar(Move(c, d, 1))
    ensures InsideWalls(Move(c, d, 2), width, height) && OddCell(Move(c, d, 2))
  {
  }

  /** Hanging the passage `m` under `c` and the target `n` under `m` keeps the tree. */
  lemma TreeGrows(s: set<Cell>, parent: map<Cell, Cell>, depth: map<Cell, nat>, c: Cell, m: Cell, n: Cell)
    requires Tree(s, parent, depth) && c in s && n !in s && m != n
    requires Adjacent(c, m) && Adjacent(m, n)
    ensures var parent1 := if m in s then parent else parent[m := c];
      var depth1 := if m in s then depth else depth[m := depth[c] + 1];
      Tree(s + {m, n}, parent1[n := m], depth1[n := depth1[m] + 1])
  {
  }

  /** The bookkeeping of one carve step: the new target joins the settled cells' tally. */
  lemma DoneTally(done0: set<Cell>, open1: set<Cell>, open2: set<Cell>, open3: set<Cell>, m: Cell, n: Cell)
    requires open2 == open1 + {m, n} && open2 <= open3
    requires !OddCell(m) && OddCell(n) && n !in open1
    ensures done0 + {n} + OddCells(open3 - open2) == done0 + OddCells(open3 - open1)
  {
  }

  /** Nothing opened, nothing new to settle. */
  lemma OddCellsNone(open: set<Cell>)
    ensures OddCells(open - open) == {}
  {
  }

  /** Opening cells never undoes a reached target. */
  lemma ReachedGrows(c: Cell, dirs: seq<Step>, i: int, open0: set<Cell>, open1: set<Cell>, width: int, height: int)
    requires open0 <= open1 && 0 <= i < |dirs|
    requires forall k :: 0 <= k < i ==> Reached(Move(c, dirs[k], 2), open0, width, height)
    requires Reached(Move(c, dirs[i], 2), open1, width, height)
    ensures forall k :: 0 <= k < i + 1 ==> Reached(Move(c, dirs[k], 2), open1, width, height)
  {
  }

  /**
   * The ghost bookkeeping of a carve: open cells lie inside the walls and
   * are never pillars; finished cells are odd, open and settled; the tree
   * spans the open cells.
   */
  ghost predicate Carving(open: set<Cell>, done: set<Cell>, parent: map<Cell, Cell>, depth: map<Cell, nat>, width: int, height: int) {
    && (forall c :: c in open ==> InsideWalls(c, width, height) && !Pillar(c))
    && done <= open
    && (forall c :: c in done ==> OddCell(c))
    && (forall c {:trigger Settled(c, open, width, height)} :: c in done ==> Settled(c, open, width, height))
    && Tree(open, parent, depth)
  }

  /**
   * Opening the passage from an odd open cell `c` in direction `d` and the
   * fresh target beyond it, each hung under the cell it was reached from,
   * keeps the bookkeeping.
   */
  lemma CarvingGrows(open0: set<Cell>, parent0: map<Cell, Cell>, depth0: map<Cell, nat>,
                     open1: set<Cell>, parent1: map<Cell, Cell>, depth1: map<Cell, nat>,
                     done: set<Cell>, width: int, height: int, c: Cell, d: Step)
    requires Carving(open0, done, parent0, depth0, width, height)
    requires c in open0 && OddCell(c)
    requires d == Up || d == Down || d == Left || d == Right
    requires InBounds(Move(c, d, 2), width, height) && Move(c, d, 2) !in open0
    requires var m, n := Move(c, d, 1), Move(c, d, 2);
      var parent := if m in open0 then parent0 else parent0[m := c];
      var depth := if m in open0 then depth0 else depth0[m := depth0[c] + 1];
      && open1 == open0 + {m, n}
      && parent1 == parent[n := m]
      && depth1 == depth[n := depth[m] + 1]
    ensures Carving(open1, done, parent1, depth1, width, height)
  {
    var m, n := Move(c, d, 1), Move(c, d, 2);
    StepInside(c, d, width, height);
    TreeGrows(open0, parent0, depth0, c, m, n);
    forall e | e in done
      ensures Settled(e, open1, width, height)
    {
      assert Settled(e, open0, width, height);
    }
  }

  /**
   * When the carve from Start has settled Start and every odd cell it
   * opened, every target is open; when both sizes are odd, the end cell
   * (width - 2, height - 2) is one of them and every open cell is linked
   * to Start.
   */
  lemma CarveFinished(open: set<Cell>, done: set<Cell>, parent: map<Cell, Cell>, depth: map<Cell, nat>,
                      width: int, height: int)
    requires Carving(open, done, parent, depth, width, height)
    requires Start in open && done == {Start} + OddCells(open - {Start})
    ensures Targets(width, height) <= open
    ensures Odd(width) && Odd(height) ==>
      Cell(width - 2, height - 2) in open && Connected(open)
  {
    AllTargetsReached(done, open, width, height);
    if Odd(width) && Odd(height) {
      assert Odd(width - 2) && Odd(height - 2);
      TargetIn(Cell(width - 2, height - 2), width, height);
      TreeLinks(open, parent, depth);
    }
  }

  /** The maze holds 0 exactly on the cells of `open` and 1 elsewhere. */
  ghost predicate Mirrors(maze: array2<int>, open: set<Cell>)
    reads maze
  {
    forall y, x {:trigger maze[y, x]} :: 0 <= y < maze.Length0 && 0 <= x < maze.Length1 ==>
      maze[y, x] == if Cell(x, y) in open then 0 else 1
  }

  /** `maze[c.y][c.x] = 0`: the cell `c` joins the open cells. */
  method OpenCell(maze: array2<int>, ghost open: set<Cell>, c: Cell)
    requires Mirrors(maze, open)
    requires 0 <= c.y < maze.Length0 && 0 <= c.x < maze.Length1
    modifies maze
    ensures Mirrors(maze, open + {c})
  {
    maze[c.y, c.x] := 0;
    forall y, x | 0 <= y < maze.Length0 && 0 <= x < maze.Length1
      ensures maze[y, x] == if Cell(x, y) in open + {c} then 0 else 1
    {
      if Cell(x, y) != c {
        assert maze[y, x] == old(maze[y, x]);
      }
    }
  }

  /**
   * The state of one `generate_maze` call: the maze being carved, its bounds,
   * the direction order at each cell, and (ghost) the open cells, the cells
   * whose carve has finished, and a spanning tree of the open cells.
   */
  class Carver {
    const width: int
    const height: int
    const maze: array2<int>
    const order: Cell -> seq<Step>
    ghost var open: set<Cell>
    ghost var done: set<Cell>
    ghost var parent: map<Cell, Cell>
    ghost var depth: map<Cell, nat>

    /**
     * The maze holds 0 exactly on the open cells and 1 elsewhere, and the
     * ghost bookkeeping is consistent.
     */
    ghost predicate Valid()
      reads this, maze
    {
      && 2 <= width && 2 <= height
      && maze.Length0 == height && maze.Length1 == width
      && (forall c :: IsShuffle(order(c)))
      && Mirrors(maze, open)
      && Carving(open, done, parent, depth, width, height)
    }

    /** The maze after `maze[1][1] = 0`: only the start is open. */
    constructor (maze: array2<int>, width: int, height: int, order: Cell -> seq<Step>)
      requires 2 <= width && 2 <= height
      requires maze.Length0 == height && maze.Length1 == width
      requires forall c :: IsShuffle(order(c))
      requires Mirrors(maze, {Start})
      ensures Valid()
      ensures this.maze == maze && this.width == width && this.height == height && this.order == order
      ensures open == {Start} && done == {}
    {
      this.maze := maze;
      this.width := width;
      this.height := height;
      this.order := order;
      open := {Start};
      done := {};
      parent := map[];
      depth := map[Start := 0];
    }

    /**
     * The body of a carving step: open the cell between (x, y) and the
     * target two cells away in direction `d`, then the target.
     */
    method OpenPassage(x: int, y: int, d: Step)
      requires Valid()
      requires Cell(x, y) in open && OddCell(Cell(x, y))
      requires d == Up || d == Down || d == Left || d == Right
      requires InBounds(Move(Cell(x, y), d, 2), width, height) && Move(Cell(x, y), d, 2) !in open
      modifies this`open, this`parent, this`depth, maze
      ensures Valid()
      ensures open == old(open) + {Move(Cell(x, y), d, 1), Move(Cell(x, y), d, 2)}
    {
      var c, m, n := Cell(x, y), Move(Cell(x, y), d, 1), Move(Cell(x, y), d, 2);
      StepInside(c, d, width, height);
      OpenCell(maze, open, m);
      OpenCell(maze, open + {m}, n);
      assert open + {m} + {n} == open + {m, n};
      ghost var open0, parent0, depth0 := open, parent, depth;
      if m !in open {
        parent, depth := parent[m := c], depth[m := depth[c] + 1];
      }
      parent, depth := parent[n := m], depth[n := depth[m] + 1];
      open := open + {m, n};
      CarvingGrows(open0, parent0, depth0, open, parent, depth, done, width, height, c, d);
    }

    /**
     * `carve(x, y)`: in the shuffled order, try each direction in turn. The
     * cell must be open and not carved from before, so no cell is carved
     * twice; on return, the cell and every odd cell opened on the way are
     * settled.
     */
    method Carve(x: int, y: int)
      requires Valid()
      requires Cell(x, y) in open && Cell(x, y) !in done && OddCell(Cell(x, y))
      modifies this, maze
      ensures Valid()
      ensures old(open) <= open
      ensures done == old(done) + {Cell(x, y)} + OddCells(open - old(open))
      decreases Targets(width, height) - open, 1
    {
      var dirs := order(Cell(x, y));
      for i := 0 to |dirs|
        invariant Valid()
        invariant old(open) <= open
        invariant Cell(x, y) in open && Cell(x, y) !in done
        invariant done == old(done) + OddCells(open - old(open))
        invariant forall k :: 0 <= k < i ==> Reached(Move(Cell(x, y), dirs[k], 2), open, width, height)
      {
        ShuffleStep(dirs, i);
        ghost var open0 := open;
        Branch(x, y, dirs[i]);
        ReachedGrows(Cell(x, y), dirs, i, open0, open, width, height);
      }
      SettledByShuffle(Cell(x, y), dirs, open, width, height);
      done := done + {Cell(x, y)};
    }

    /**
     * One pass of `carve`'s loop: when the target two cells away in
     * direction `d` is within bounds and still a wall, open the cell in
     * between and the target, and carve on from the target. Afterwards the
     * target is reached, and every odd cell opened is settled.
     */
    method Branch(x: int, y: int, d: Step)
      requires Valid()
      requires Cell(x, y) in open && Cell(x, y) !in done && OddCell(Cell(x, y))
      requires d == Up || d == Down || d == Left || d == Right
      modifies this, maze
      ensures Valid()
      ensures old(open) <= open
      ensures Cell(x, y) !in done
      ensures done == old(done) + OddCells(open - old(open))
      ensures Reached(Move(Cell(x, y), d, 2), open, width, height)
      decreases Targets(width, height) - open, 0
    {
      var nx, ny := x + d.dx * 2, y + d.dy * 2;
      if 0 < nx < width && 0 < ny < height && maze[ny, nx] == 1 {
        ghost var open1 := open;
        ghost var m, n := Move(Cell(x, y), d, 1), Move(Cell(x, y), d, 2);
        StepInside(Cell(x, y), d, width, height);
        OpenPassage(x, y, d);
        TargetIn(n, width, height);
        ghost var open2 := open;
        Carve(nx, ny);
        DoneTally(old(done), open1, open2, open, m, n);
      } else {
        OddCellsNone(old(open));
      }
    }
  }

  /**
   * `generate_maze(width, height)`: a maze of `height` rows of `width`
   * cells, all walls, then (1, 1) opened, carved from, and (width - 2,
   * height - 2) opened. Every cell holds 0 or 1, as `open` says; every odd
   * cell within bounds is open; apart from the end cell, open cells stay
   * off row 0 and column 0 and off the last row and column when the size
   * is odd, and none has two even coordinates; when both sizes are odd,
   * every open cell is linked to (1, 1) through open cells.
   */
  method GenerateMaze(width: int, height: int, order: Cell -> seq<Step>) returns (maze: array2<int>, ghost open: set<Cell>)
    requires 2 <= width && 2 <= height
    requires forall c :: IsShuffle(order(c))
    ensures fresh(maze)
    ensures maze.Length0 == height && maze.Length1 == width
    ensures Mirrors(maze, open)
    ensures Start in open && Cell(width - 2, height - 2) in open
    ensures Targets(width, height) <= open
    ensures forall c :: c in open && c != Cell(width - 2, height - 2) ==>
      InsideWalls(c, width, height) && !Pillar(c)
    ensures Odd(width) && Odd(height) ==>
      Connected(open) && forall c :: c in open ==> InsideWalls(c, width, height)
  {
    maze := new int[height, width]((_, _) => 1);
    assert Mirrors(maze, {});
    OpenCell(maze, {}, Start);
    var carver := new Carver(maze, width, height, order);
    carver.Carve(1, 1);
    CarveFinished(carver.open, carver.done, carver.parent, carver.depth, width, height);
    open := carver.open;
    OpenCell(maze, open, Cell(width - 2, height - 2));
    if Odd(width) && Odd(height) {
      assert open + {Cell(width - 2, height - 2)} == open;
    }
    open := open + {Cell(width - 2, height - 2)};
  }
}
