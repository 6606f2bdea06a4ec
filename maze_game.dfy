/**
 * The grid maze game around the generator: a 39 x 29 maze drawn on a
 * 38 x 28 grid, a player walking from (1, 1) to the end cell (36, 26),
 * enemies that start on path cells of mazes of their own and teleport
 * onto path cells of the played maze every ten seconds, a thirty
 * second timer, and restart and level advance.
 *
 * The random draws of `Enemy.__init__` and `Enemy.teleport` are supplied
 * as sequences of cells, the shuffles of `generate_maze` as direction
 * orders, and the clock as `now`.
 */
module MazeGame {
  import opened Options
  import opened Basics
  import opened MazeGen

  /** `GRID_WIDTH` and `GRID_HEIGHT`: the screen's 800 x 600 pixels in 20-pixel cells, less two. */
  const GridWidth := 800 / 20 - 2
  const GridHeight := 600 / 20 - 2
  /** Every maze is generated one cell wider and higher than the grid. */
  const MazeWidth := GridWidth + 1
  const MazeHeight := GridHeight + 1
  /** `end_pos`: the cell the player must reach. */
  const EndPos := Cell(GridWidth - 2, GridHeight - 2)
  /** How many enemies each level has. */
  const EnemyCount := 5
  /** Milliseconds between two teleports of an enemy. */
  const TeleportInterval := 10000
  /** Milliseconds a level may last. */
  const TimerDuration := 30 * 1000

  /** The range of `random.randint(1, GRID_WIDTH - 2)` and `random.randint(1, GRID_HEIGHT - 2)`. */
  predicate Spot(c: Cell) {
    1 <= c.x <= GridWidth - 2 && 1 <= c.y <= GridHeight - 2
  }

  /**
   * A supply of placement draws: each one in range, and one of them with
   * both coordinates odd. Every generated maze has all such cells open, so
   * the redraw loop stops there at the latest; a random supply has one
   * with probability 1.
   */
  predicate Drawable(draws: seq<Cell>) {
    && (forall i :: 0 <= i < |draws| ==> Spot(draws[i]))
    && exists i :: 0 <= i < |draws| && OddCell(draws[i])
  }

  /** The cell is in the maze and a wall (1). */
  predicate IsWall(maze: array2<int>, c: Cell)
    reads maze
  {
    0 <= c.y < maze.Length0 && 0 <= c.x < maze.Length1 && maze[c.y, c.x] == 1
  }

  /** Draw `k` is the first that is not a wall. */
  ghost predicate FirstOpen(maze: array2<int>, draws: seq<Cell>, k: int)
    reads maze
  {
    && 0 <= k < |draws| && !IsWall(maze, draws[k])
    && forall j :: 0 <= j < k ==> IsWall(maze, draws[j])
  }

  /**
   * The placement rule of `Enemy.__init__` and `Enemy.teleport`: draw a
   * cell, and draw again while it is a wall.
   */
  method PickOpenCell(maze: array2<int>, draws: seq<Cell>) returns (c: Cell, ghost k: int)
    requires maze.Length0 >= GridHeight - 1 && maze.Length1 >= GridWidth - 1
    requires forall i :: 0 <= i < |draws| ==> Spot(draws[i])
    requires exists i :: 0 <= i < |draws| && !IsWall(maze, draws[i])
    ensures FirstOpen(maze, draws, k) && c == draws[k]
    ensures Spot(c) && maze[c.y, c.x] != 1
  {
    ghost var w :| 0 <= w < |draws| && !IsWall(maze, draws[w]);
    var i := 0;
    c := draws[0];
    while maze[c.y, c.x] == 1
      invariant 0 <= i <= w && c == draws[i]
      invariant forall j :: 0 <= j < i ==> IsWall(maze, draws[j])
      decreases w - i
    {
      i := i + 1;
      c := draws[i];
    }
    k := i;
  }

  /** In a maze that has every odd in-range cell open, an odd draw is not a wall. */
  lemma OddDrawOpens(maze: array2<int>, open: set<Cell>, draws: seq<Cell>)
    requires maze.Length0 == MazeHeight && maze.Length1 == MazeWidth
    requires Mirrors(maze, open) && OddOpen(open)
    requires Drawable(draws)
    ensures exists i :: 0 <= i < |draws| && !IsWall(maze, draws[i])
  {
    var i :| 0 <= i < |draws| && OddCell(draws[i]);
    assert !IsWall(maze, draws[i]);
  }

  /** Every cell of a level-sized maze with both coordinates odd is open. */
  ghost predicate OddOpen(open: set<Cell>) {
    forall c :: InBounds(c, MazeWidth, MazeHeight) && OddCell(c) ==> c in open
  }

  /** `OddOpen` is the covering of `Targets` that `generate_maze` ensures. */
  lemma TargetsOpen(open: set<Cell>)
    requires Targets(MazeWidth, MazeHeight) <= open
    ensures OddOpen(open)
  {
    forall c | InBounds(c, MazeWidth, MazeHeight) && OddCell(c)
      ensures c in open
    {
      TargetIn(c, MazeWidth, MazeHeight);
    }
  }

  /** An enemy of the maze game: its cell, whether it is alive, and when it last teleported. */
  class MazeEnemy {
    var x: int
    var y: int
    var alive: bool
    var teleportTime: int

    /** `Enemy(maze)`: placed on the first draw that is not a wall of `maze`, alive. */
    constructor (maze: array2<int>, draws: seq<Cell>, now: int)
      requires maze.Length0 >= GridHeight - 1 && maze.Length1 >= GridWidth - 1
      requires forall i :: 0 <= i < |draws| ==> Spot(draws[i])
      requires exists i :: 0 <= i < |draws| && !IsWall(maze, draws[i])
      ensures exists k :: FirstOpen(maze, draws, k) && Cell(x, y) == draws[k]
      ensures Spot(Cell(x, y)) && alive && teleportTime == now
    {
      var c, k := PickOpenCell(maze, draws);
      x, y := c.x, c.y;
      alive := true;
      teleportTime := now;
    }

    /** `teleport(maze)`: moved to the first draw that is not a wall of `maze`. */
    method Teleport(maze: array2<int>, draws: seq<Cell>)
      requires maze.Length0 >= GridHeight - 1 && maze.Length1 >= GridWidth - 1
      requires forall i :: 0 <= i < |draws| ==> Spot(draws[i])
      requires exists i :: 0 <= i < |draws| && !IsWall(maze, draws[i])
      modifies this`x, this`y
      ensures exists k :: FirstOpen(maze, draws, k) && Cell(x, y) == draws[k]
      ensures Spot(Cell(x, y))
    {
      var c, k := PickOpenCell(maze, draws);
      x, y := c.x, c.y;
    }
  }

  /** Some live enemy stands on `p`; dead enemies never count. */
  predicate Caught(p: Cell, enemies: seq<MazeEnemy>)
    reads enemies
  {
    exists i :: 0 <= i < |enemies| && enemies[i].alive && Cell(enemies[i].x, enemies[i].y) == p
  }

  /** `check_collision_player_enemy`: the scan of the enemy list for a live enemy on the player's cell. */
  method Collides(p: Cell, enemies: seq<MazeEnemy>) returns (hit: bool)
    ensures hit == Caught(p, enemies)
  {
    for i := 0 to |enemies|
      invariant forall j :: 0 <= j < i ==> !(enemies[j].alive && Cell(enemies[j].x, enemies[j].y) == p)
    {
      var e := enemies[i];
      if e.alive && p.x == e.x && p.y == e.y {
        return true;
      }
    }
    return false;
  }

  /**
   * `generate_maze(width, height)` for spawning: an enemy's maze has the
   * same size as the level's, so every odd draw in range is open in it.
   */
  method SpawnEnemies(now: int, orders: seq<Cell -> seq<Step>>, draws: seq<seq<Cell>>) returns (enemies: seq<MazeEnemy>)
    requires SpawnSupply(orders, draws)
    ensures |enemies| == EnemyCount
    ensures forall i :: 0 <= i < |enemies| ==> fresh(enemies[i])
    ensures Spawned(enemies, now, draws)
  {
    enemies := [];
    for i := 0 to EnemyCount
      invariant |enemies| == i
      invariant forall j :: 0 <= j < i ==> fresh(enemies[j])
      invariant Spawned(enemies, now, draws)
    {
      var maze;
      ghost var open;
      maze, open := GenerateMaze(MazeWidth, MazeHeight, orders[i]);
      TargetsOpen(open);
      OddDrawOpens(maze, open, draws[i]);
      var e := new MazeEnemy(maze, draws[i], now);
      ghost var k :| FirstOpen(maze, draws[i], k) && Cell(e.x, e.y) == draws[i][k];
      assert Placed(e, now, draws[i]);
      enemies := enemies + [e];
    }
  }

  /**
   * Freshly spawned enemies, no object twice: each alive, its teleport
   * clock at `now`, on one of its own placement draws.
   */
  predicate Spawned(enemies: seq<MazeEnemy>, now: int, draws: seq<seq<Cell>>)
    reads enemies
  {
    && |draws| >= |enemies|
    && Distinct(enemies)
    && forall i :: 0 <= i < |enemies| ==> Placed(enemies[i], now, draws[i])
  }

  /** A new enemy: alive, its teleport clock at `now`, on one of the draws `d`. */
  predicate Placed(e: MazeEnemy, now: int, d: seq<Cell>)
    reads e
  {
    && e.alive && e.teleportTime == now && Spot(Cell(e.x, e.y))
    && exists k :: 0 <= k < |d| && Cell(e.x, e.y) == d[k]
  }

  /** Five maze shuffles and five placement supplies, one per new enemy. */
  ghost predicate SpawnSupply(orders: seq<Cell -> seq<Step>>, draws: seq<seq<Cell>>) {
    && |orders| == EnemyCount && |draws| == EnemyCount
    && (forall i, c :: 0 <= i < EnemyCount ==> IsShuffle(orders[i](c)))
    && forall i :: 0 <= i < EnemyCount ==> Drawable(draws[i])
  }

  /** A walk through `s` to `a`, extended by one step to `n`, is a walk through `s` and `n`. */
  lemma LinkNeighbour(s: set<Cell>, a: Cell, n: Cell)
    requires Linked(s, Start, a) && Adjacent(a, n)
    ensures Linked(s + {n}, Start, n)
  {
    var p :| IsPath(p, s) && p[0] == Start && p[|p| - 1] == a;
    var q := p + [n];
    assert IsPath(q, s + {n}) && q[0] == Start && q[|q| - 1] == n;
  }

  /** Opening more cells keeps every walk. */
  lemma LinkWiden(s: set<Cell>, t: set<Cell>, c: Cell)
    requires Linked(s, Start, c) && s <= t
    ensures Linked(t, Start, c)
  {
    var p :| IsPath(p, s) && p[0] == Start && p[|p| - 1] == c;
    assert IsPath(p, t);
  }

  /**
   * `maze[end_pos[1]][end_pos[0]] = 0`: the end cell (36, 26) has two even
   * coordinates, so no carve opens it, but the corridor into the maze's
   * last cell (37, 27) passes next to it; opening it keeps every open cell
   * linked to (1, 1).
   */
  lemma EndLinked(open: set<Cell>)
    requires Connected(open) && forall c :: c in open ==> InsideWalls(c, MazeWidth, MazeHeight)
    requires Cell(MazeWidth - 2, MazeHeight - 2) in open
    ensures Connected(open + {EndPos})
  {
    var last := Cell(MazeWidth - 2, MazeHeight - 2);
    assert Linked(open, Start, last);
    var p :| IsPath(p, open) && p[0] == Start && p[|p| - 1] == last;
    var a := p[|p| - 2];
    assert a in open && Adjacent(a, last);
    assert Linked(open, Start, a) by {
      var q := p[..|p| - 1];
      assert IsPath(q, open) && q[0] == Start && q[|q| - 1] == a;
    }
    assert InsideWalls(a, MazeWidth, MazeHeight);
    LinkNeighbour(open, a, EndPos);
    forall c | c in open + {EndPos}
      ensures Linked(open + {EndPos}, Start, c)
    {
      if c != EndPos {
        assert Linked(open, Start, c);
        LinkWiden(open, open + {EndPos}, c);
      }
    }
  }

  /**
   * The maze of a level: `generate_maze(GRID_WIDTH + 1, GRID_HEIGHT + 1)`
   * with the end cell opened. Its open cells lie inside the outer walls,
   * include every odd cell and the end, and are all linked to (1, 1).
   */
  method LevelMaze(order: Cell -> seq<Step>) returns (maze: array2<int>, ghost open: set<Cell>)
    requires forall c :: IsShuffle(order(c))
    ensures fresh(maze)
    ensures Laid(maze, open)
  {
    ghost var open0;
    maze, open0 := GenerateMaze(MazeWidth, MazeHeight, order);
    TargetsOpen(open0);
    OpenCell(maze, open0, EndPos);
    EndLinked(open0);
    open := open0 + {EndPos};
  }

  /**
   * A level's maze: 29 rows of 39 cells holding 0 exactly on `open`, whose
   * cells lie inside the outer walls, include every odd cell and the end,
   * and are all linked to (1, 1).
   */
  ghost predicate Laid(maze: array2<int>, open: set<Cell>)
    reads maze
  {
    && maze.Length0 == MazeHeight && maze.Length1 == MazeWidth
    && Mirrors(maze, open)
    && (forall c :: c in open ==> InsideWalls(c, MazeWidth, MazeHeight))
    && OddOpen(open)
    && EndPos in open
    && Connected(open)
  }

  /** The keys held in a frame. */
  datatype Keys = Keys(up: bool, down: bool, left: bool, right: bool,
                       w: bool, a: bool, s: bool, d: bool, r: bool, q: bool)

  /** Off the maze's outermost rows and columns: every neighbour is in the maze. */
  predicate Inner(maze: array2<int>, c: Cell) {
    0 < c.x < maze.Length1 - 1 && 0 < c.y < maze.Length0 - 1
  }

  /** Every path cell (0) is off the maze's outermost rows and columns. */
  predicate Ringed(maze: array2<int>)
    reads maze
  {
    forall y, x :: 0 <= y < maze.Length0 && 0 <= x < maze.Length1 && maze[y, x] == 0 ==> Inner(maze, Cell(x, y))
  }

  /**
   * One of the four movement checks: when the key is held and the cell one
   * step away is a path (0), the player moves there; otherwise it stays.
   */
  function Attempt(maze: array2<int>, p: Cell, d: Step, held: bool): (r: Cell)
    reads maze
    requires Ringed(maze) && Inner(maze, p)
    requires d == Up || d == Down || d == Left || d == Right
    ensures r == p || (held && r == Move(p, d, 1) && maze[r.y, r.x] == 0)
    ensures held && maze[p.y + d.dy, p.x + d.dx] == 0 ==> r == Move(p, d, 1)
    ensures Inner(maze, r)
  {
    if held && maze[p.y + d.dy, p.x + d.dx] == 0 then Move(p, d, 1) else p
  }

  /**
   * The four movement checks in the order up, down, left, right, each from
   * where the previous one left the player: the player ends on its own
   * cell or on a path cell, at most one step away along each axis.
   */
  function Walk(maze: array2<int>, p: Cell, keys: Keys): (r: Cell)
    reads maze
    requires Ringed(maze) && Inner(maze, p)
    ensures Inner(maze, r)
    ensures r == p || maze[r.y, r.x] == 0
    ensures Abs(r.x - p.x) <= 1 && Abs(r.y - p.y) <= 1
  {
    var p1 := Attempt(maze, p, Up, keys.up);
    var p2 := Attempt(maze, p1, Down, keys.down);
    var p3 := Attempt(maze, p2, Left, keys.left);
    Attempt(maze, p3, Right, keys.right)
  }

  /** The shooting keys w, a, s, d by priority, with the direction each fires in. */
  const ShotKeys: seq<Step> := [Up, Left, Down, Right]

  function Held(keys: Keys, d: Step): bool {
    if d == Up then keys.w else if d == Left then keys.a else if d == Down then keys.s else d == Right && keys.d
  }

  /**
   * The direction of the frame's bullet, if any: the first shooting key
   * held, by priority w, a, s, d.
   */
  function ShotDirection(keys: Keys): Option<Step> {
    if keys.w then Some(Up)
    else if keys.a then Some(Left)
    else if keys.s then Some(Down)
    else if keys.d then Some(Right)
    else None
  }

  /**
   * A bullet is fired exactly when a shooting key is held, in the
   * direction of the first one held by priority.
   */
  lemma ShotDirectionFirstHeld(keys: Keys)
    ensures ShotDirection(keys).Some? <==> exists i :: 0 <= i < |ShotKeys| && Held(keys, ShotKeys[i])
    ensures ShotDirection(keys).Some? ==>
      exists i :: && 0 <= i < |ShotKeys| && ShotKeys[i] == ShotDirection(keys).value
                  && Held(keys, ShotKeys[i])
                  && forall j :: 0 <= j < i ==> !Held(keys, ShotKeys[j])
  {
    assert ShotKeys[0] == Up && ShotKeys[1] == Left && ShotKeys[2] == Down && ShotKeys[3] == Right;
    assert Held(keys, Up) == keys.w && Held(keys, Left) == keys.a;
    assert Held(keys, Down) == keys.s && Held(keys, Right) == keys.d;
  }

  /** A bullet: where it was fired from and its direction. */
  datatype Bullet = Bullet(x: int, y: int, dir: Step)

  /** The bullets the shooting checks append in a frame: one from `p`, in `ShotDirection`, or none. */
  function Fired(p: Cell, keys: Keys): seq<Bullet> {
    match ShotDirection(keys)
    case Some(d) => [Bullet(p.x, p.y, d)]
    case None => []
  }

  /**
   * `max(0, timer_duration - elapsed_time)`: the time left, which is 0
   * exactly when thirty seconds have passed since the level started.
   */
  function Remaining(now: int, startTime: int): (r: int)
    ensures r >= 0
    ensures r == 0 <==> now - startTime >= TimerDuration
    ensures r > 0 ==> r + (now - startTime) == TimerDuration
  {
    if TimerDuration - (now - startTime) > 0 then TimerDuration - (now - startTime) else 0
  }

  /**
   * The teleport pass over `es`, between the state before it and now: no
   * enemy's `alive` changes; every live enemy whose last teleport is ten
   * seconds or more ago stands on a path cell, its first non-wall draw of
   * `draws`, with its clock at `now`; every other enemy keeps its cell and
   * its clock.
   */
  twostate predicate Teleported(es: seq<MazeEnemy>, maze: array2<int>, open: set<Cell>, now: int, draws: seq<seq<Cell>>)
    reads es, maze
  {
    && |draws| == |es|
    && forall i :: 0 <= i < |es| ==>
      && es[i].alive == old(es[i].alive)
      && if old(es[i].alive) && now - old(es[i].teleportTime) >= TeleportInterval then
           && es[i].teleportTime == now
           && Cell(es[i].x, es[i].y) in open
           && exists k :: FirstOpen(maze, draws[i], k) && Cell(es[i].x, es[i].y) == draws[i][k]
         else
           es[i].teleportTime == old(es[i].teleportTime)
           && es[i].x == old(es[i].x) && es[i].y == old(es[i].y)
  }

  /** How a frame ends: on, with a new maze to generate, or quitting. */
  datatype FrameEnd = Continue | NewLevel | Quit

  /** The state of `main`: the level, the player, the timer, bullets, enemies and the maze. */
  class Game {
    var level: int
    var player: Cell
    var endPos: Cell
    var startTime: int
    var gameOver: bool
    var bullets: seq<Bullet>
    var enemies: seq<MazeEnemy>
    var maze: array2<int>
    /** The maze's path cells. */
    ghost var open: set<Cell>

    /** The maze is laid, the player stands on one of its path cells, and the enemies are distinct. */
    ghost predicate Valid()
      reads this`maze, this`open, this`player, this`endPos, this`enemies, maze
    {
      && Laid(maze, open)
      && player in open
      && endPos == EndPos
      && Distinct(enemies)
    }

    /** The set-up of `main`: level 1, the player at (1, 1), five enemies, the first maze. */
    constructor (now: int, order: Cell -> seq<Step>, spawnOrders: seq<Cell -> seq<Step>>, spawnDraws: seq<seq<Cell>>)
      requires forall c :: IsShuffle(order(c))
      requires SpawnSupply(spawnOrders, spawnDraws)
      ensures Valid()
      ensures level == 1 && player == Start && endPos == EndPos && startTime == now
      ensures !gameOver && bullets == [] && |enemies| == EnemyCount
      ensures Spawned(enemies, now, spawnDraws)
      ensures forall i :: 0 <= i < |enemies| ==> fresh(enemies[i])
    {
      var es := SpawnEnemies(now, spawnOrders, spawnDraws);
      var m;
      ghost var o;
      m, o := LevelMaze(order);
      level := 1;
      player := Start;
      endPos := EndPos;
      startTime := now;
      gameOver := false;
      bullets := [];
      enemies := es;
      maze, open := m, o;
    }

    /** The maze generated at the top of `main`'s outer loop, for the level now starting. */
    method StartLevel(order: Cell -> seq<Step>)
      requires forall c :: IsShuffle(order(c))
      requires player == Start && endPos == EndPos && Distinct(enemies)
      modifies this`maze, this`open
      ensures Valid() && fresh(maze)
    {
      maze, open := LevelMaze(order);
    }

    /** The four movement checks of a frame, each allowed only onto a path cell. */
    method MovePlayer(keys: Keys)
      requires Valid()
      modifies this`player
      ensures Valid()
      ensures Ringed(maze) && Inner(maze, old(player))
      ensures player == Walk(maze, old(player), keys)
    {
      RingedLaid(maze, open);
      ghost var walk := Walk(maze, player, keys);
      TryStep(Up, keys.up);
      TryStep(Down, keys.down);
      TryStep(Left, keys.left);
      TryStep(Right, keys.right);
      assert player == walk;
      assert player in open by {
        if player != old(player) {
          assert maze[player.y, player.x] == 0;
        }
      }
    }

    /** One movement check: with the key held, step to the next cell when it is a path (0). */
    method TryStep(d: Step, held: bool)
      requires Ringed(maze) && Inner(maze, player)
      requires d == Up || d == Down || d == Left || d == Right
      modifies this`player
      ensures player == Attempt(maze, old(player), d, held)
    {
      if held {
        var next := Cell(player.x + d.dx, player.y + d.dy);
        if maze[next.y, next.x] == 0 {
          player := next;
        }
      }
    }

    /** Shooting with w, a, s, d: at most one bullet a frame, from the player's cell. */
    method Shoot(keys: Keys)
      modifies this`bullets
      ensures bullets == old(bullets) + Fired(player, keys)
    {
      if keys.w {
        bullets := bullets + [Bullet(player.x, player.y, Up)];
      } else if keys.a {
        bullets := bullets + [Bullet(player.x, player.y, Left)];
      } else if keys.s {
        bullets := bullets + [Bullet(player.x, player.y, Down)];
      } else if keys.d {
        bullets := bullets + [Bullet(player.x, player.y, Right)];
      }
    }

    /**
     * The teleport pass of a frame: every live enemy whose last teleport is ten seconds or
     * more ago teleports onto a path cell of the maze and restarts its
     * clock; no other enemy changes.
     */
    method TeleportDue(now: int, draws: seq<seq<Cell>>)
      requires Valid()
      requires |draws| == |enemies| && forall i :: 0 <= i < |draws| ==> Drawable(draws[i])
      modifies enemies
      ensures Valid()
      ensures Teleported(enemies, maze, open, now, draws)
    {
      for i := 0 to |enemies|
        invariant forall j :: 0 <= j < |enemies| ==> enemies[j].alive == old(enemies[j].alive)
        invariant forall j :: i <= j < |enemies| ==> unchanged(enemies[j])
        invariant forall j :: 0 <= j < i ==>
          if old(enemies[j].alive) && now - old(enemies[j].teleportTime) >= TeleportInterval then
            && enemies[j].teleportTime == now
            && Cell(enemies[j].x, enemies[j].y) in open
            && exists k :: FirstOpen(maze, draws[j], k) && Cell(enemies[j].x, enemies[j].y) == draws[j][k]
          else
            enemies[j].teleportTime == old(enemies[j].teleportTime)
            && enemies[j].x == old(enemies[j].x) && enemies[j].y == old(enemies[j].y)
      {
        var e := enemies[i];
        if e.alive && now - e.teleportTime >= TeleportInterval {
          OddDrawOpens(maze, open, draws[i]);
          e.Teleport(maze, draws[i]);
          e.teleportTime := now;
          assert maze[e.y, e.x] == 0;
        }
      }
    }

    /**
     * Restart and level advance: a level starts over at `newLevel` with the
     * player at (1, 1), the timer restarted, no bullets, game over cleared
     * and five new enemies.
     */
    method Reset(newLevel: int, now: int, spawnOrders: seq<Cell -> seq<Step>>, spawnDraws: seq<seq<Cell>>)
      requires Valid()
      requires SpawnSupply(spawnOrders, spawnDraws)
      modifies this`level, this`player, this`endPos, this`startTime, this`gameOver, this`bullets, this`enemies
      ensures Valid()
      ensures level == newLevel && player == Start && endPos == EndPos && startTime == now
      ensures !gameOver && bullets == [] && |enemies| == EnemyCount
      ensures Spawned(enemies, now, spawnDraws)
      ensures forall i :: 0 <= i < |enemies| ==> fresh(enemies[i])
    {
      level := newLevel;
      player := Start;
      endPos := EndPos;
      startTime := now;
      gameOver := false;
      bullets := [];
      enemies := SpawnEnemies(now, spawnOrders, spawnDraws);
    }

    /** Movement and shooting, allowed only while the game is not over. */
    method Steer(keys: Keys)
      requires Valid()
      modifies this`player, this`bullets
      ensures Valid()
      ensures Ringed(maze) && Inner(maze, old(player))
      ensures player == if gameOver then old(player) else Walk(maze, old(player), keys)
      ensures bullets == if gameOver then old(bullets) else old(bullets) + Fired(player, keys)
    {
      RingedLaid(maze, open);
      if !gameOver {
        MovePlayer(keys);
        Shoot(keys);
      }
    }

    /**
     * The rest of a frame's play: the teleport pass, then the collision
     * and timer checks, either of which ends the game.
     */
    method Check(now: int, teleportDraws: seq<seq<Cell>>)
      requires Valid()
      requires |teleportDraws| == |enemies| && forall i :: 0 <= i < |teleportDraws| ==> Drawable(teleportDraws[i])
      modifies this`gameOver, enemies
      ensures Valid()
      ensures Teleported(enemies, maze, open, now, teleportDraws)
      ensures gameOver == (old(gameOver) || Caught(player, enemies) || Remaining(now, startTime) == 0)
    {
      TeleportDue(now, teleportDraws);
      var hit := Collides(player, enemies);
      if hit {
        gameOver := true;
      }
      if Remaining(now, startTime) == 0 {
        gameOver := true;
      }
    }

    /**
     * The play of a frame, up to the end-of-frame decision: movement and
     * shooting while the game is not over, the teleport pass, then the
     * collision and timer checks.
     */
    method Play(keys: Keys, now: int, teleportDraws: seq<seq<Cell>>)
      requires Valid()
      requires |teleportDraws| == |enemies| && forall i :: 0 <= i < |teleportDraws| ==> Drawable(teleportDraws[i])
      modifies this`player, this`bullets, this`gameOver, enemies
      ensures Valid()
      ensures Ringed(maze) && Inner(maze, old(player))
      ensures Teleported(enemies, maze, open, now, teleportDraws)
      ensures
        var cell := if old(gameOver) then old(player) else Walk(maze, old(player), keys);
        && player == cell
        && bullets == (if old(gameOver) then old(bullets) else old(bullets) + Fired(cell, keys))
        && gameOver == (old(gameOver) || Caught(cell, enemies) || Remaining(now, startTime) == 0)
    {
      RingedLaid(maze, open);
      ghost var cell := if gameOver then player else Walk(maze, player, keys);
      Steer(keys);
      Check(now, teleportDraws);
    }

    /**
     * One frame of `main`'s inner loop: movement, shooting and the
     * checks, then restart (r, back to level 1) or quit (q) when the game
     * is over, or the next level when the player stands on the end cell.
     */
    method Frame(keys: Keys, now: int, teleportDraws: seq<seq<Cell>>,
                 spawnOrders: seq<Cell -> seq<Step>>, spawnDraws: seq<seq<Cell>>) returns (r: FrameEnd)
      requires Valid()
      requires |teleportDraws| == |enemies| && forall i :: 0 <= i < |teleportDraws| ==> Drawable(teleportDraws[i])
      requires SpawnSupply(spawnOrders, spawnDraws)
      modifies this`level, this`player, this`endPos, this`startTime, this`gameOver, this`bullets, this`enemies, enemies
      ensures Valid()
      ensures Ringed(maze) && Inner(maze, old(player))
      ensures Teleported(old(enemies), maze, open, now, teleportDraws)
      ensures
        // `cell`: the player after the movement checks; `over`: game over after the collision and timer checks
        var cell := if old(gameOver) then old(player) else Walk(maze, old(player), keys);
        var over := old(gameOver) || Caught(cell, old(enemies)) || Remaining(now, old(startTime)) == 0;
        && (r == NewLevel <==> (over && keys.r) || (!over && cell == EndPos))
        && (r == Quit <==> over && !keys.r && keys.q)
        && (r == NewLevel ==>
              && level == (if over then 1 else old(level) + 1)
              && player == Start && startTime == now && !gameOver && bullets == []
              && Spawned(enemies, now, spawnDraws))
        && (r != NewLevel ==>
              && player == cell && gameOver == over && enemies == old(enemies)
              && level == old(level) && startTime == old(startTime)
              && bullets == if old(gameOver) then old(bullets) else old(bullets) + Fired(cell, keys))
    {
      Play(keys, now, teleportDraws);
      r := Conclude(keys, now, spawnOrders, spawnDraws);
    }

    /**
     * The end of a frame, after the checks: when the game is over, restart
     * at level 1 (r) or quit (q); otherwise the next level when the player
     * stands on the end cell. Anything else leaves the state as it is.
     */
    method Conclude(keys: Keys, now: int, spawnOrders: seq<Cell -> seq<Step>>, spawnDraws: seq<seq<Cell>>)
      returns (r: FrameEnd)
      requires Valid()
      requires SpawnSupply(spawnOrders, spawnDraws)
      modifies this`level, this`player, this`endPos, this`startTime, this`gameOver, this`bullets, this`enemies
      ensures Valid()
      ensures r == NewLevel <==> (old(gameOver) && keys.r) || (!old(gameOver) && old(player) == EndPos)
      ensures r == Quit <==> old(gameOver) && !keys.r && keys.q
      ensures r == NewLevel ==>
        && level == (if old(gameOver) then 1 else old(level) + 1)
        && player == Start && startTime == now && !gameOver && bullets == []
        && Spawned(enemies, now, spawnDraws)
      ensures r != NewLevel ==>
        && player == old(player) && gameOver == old(gameOver) && enemies == old(enemies)
        && level == old(level) && startTime == old(startTime) && bullets == old(bullets)
    {
      if gameOver {
        if keys.r {
          Reset(1, now, spawnOrders, spawnDraws);
          return NewLevel;
        } else if keys.q {
          return Quit;
        }
      } else if player == endPos {
        Reset(level + 1, now, spawnOrders, spawnDraws);
        return NewLevel;
      }
      return Continue;
    }
  }

  /** The path cells of a laid maze are off its outer rows and columns. */
  lemma RingedLaid(maze: array2<int>, open: set<Cell>)
    requires Laid(maze, open)
    ensures Ringed(maze)
  {
    forall y, x | 0 <= y < maze.Length0 && 0 <= x < maze.Length1 && maze[y, x] == 0
      ensures Inner(maze, Cell(x, y))
    {
      assert Cell(x, y) in open;
      assert InsideWalls(Cell(x, y), MazeWidth, MazeHeight);
    }
  }
}
