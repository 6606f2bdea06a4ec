/**
 * The state of one Bomberman round (`game_screen`): the layout, the soft
 * tiles still standing, the enemies and the occupancy set that mirrors
 * their tiles, the score, and the bomb in play. Its methods are the parts of
 * the frame loop that change that state: dropping a bomb, detonating it,
 * spawning an enemy and moving the enemies.
 */
module BomberRound {
  import opened Options
  import opened Basics
  import opened BomberGrid
  import opened BomberLevels
  import opened BomberPlayer
  import opened BomberEnemies
  import opened BomberBlast

  /** The background colour a round is started with; it fixes the enemy cap. */
  datatype Colour = Red | Green | Yellow | OtherColour

  /** How many enemies a round may hold: only green and yellow rounds spawn more than one. */
  function EnemyCap(col: Colour): (r: int)
    ensures 1 <= r <= 5
    ensures r > 1 <==> col == Green || col == Yellow
  {
    match col
    case Red => 1
    case Green => 5
    case Yellow => 3
    case OtherColour => 1
  }

  /** How a frame ends: the round goes on, is won, or the player dies. */
  datatype Outcome = Continue | Win(score: int) | Death(score: int)

  /** Points for destroying `count` enemies at once. */
  function Payout(level: int, count: int): (r: int)
    ensures count == 0 ==> r == 0
    ensures count > 0 ==> r >= 100 * count
    ensures count > 0 ==> (r == 150 * count <==> level == 3)
  {
    if level == 3 then 150 * count else 100 * count
  }

  /** `ts` lists the tiles the enemies `es` stand on, in list order. */
  ghost predicate Tracks(es: seq<Enemy>, ts: seq<Tile>)
    reads es`pos
  {
    |es| == |ts| && forall i :: 0 <= i < |es| ==> es[i].CurrentTile() == ts[i]
  }

  /**
   * The entries of `xs` whose tile in `ts` (the same position) is not
   * removed, in order.
   */
  function Keep<T>(xs: seq<T>, ts: seq<Tile>, removed: set<Tile>): seq<T>
    requires |xs| == |ts|
  {
    if xs == [] then []
    else
      var n := |xs| - 1;
      Keep(xs[..n], ts[..n], removed) + (if ts[n] in removed then [] else [xs[n]])
  }

  /** Keeping the surviving enemies keeps exactly the tiles that survive. */
  lemma {:induction false} KeepTracks(es: seq<Enemy>, ts: seq<Tile>, removed: set<Tile>)
    requires Tracks(es, ts)
    ensures Tracks(Keep(es, ts, removed), Keep(ts, ts, removed))
  {
    if es != [] {
      var n := |es| - 1;
      KeepTracks(es[..n], ts[..n], removed);
    }
  }

  /**
   * Dropping the enemies on removed tiles keeps an exact, one-per-tile
   * occupancy set exact once those tiles leave the set.
   */
  lemma {:induction false} FilterKeepsOccupancy(ts: seq<Tile>, removed: set<Tile>)
    requires Distinct(ts)
    ensures Distinct(Keep(ts, ts, removed))
    ensures Elems(Keep(ts, ts, removed)) == Elems(ts) - removed
  {
    if ts != [] {
      var n := |ts| - 1;
      var init := ts[..n];
      var last := ts[n];
      assert ts == init + [last];
      assert Distinct(init);
      FilterKeepsOccupancy(init, removed);
      assert Elems(ts) == Elems(init) + {last};
      assert last !in Elems(init);
      if last !in removed {
        assert Keep(ts, ts, removed) == Keep(init, init, removed) + [last];
        SpawnKeepsOccupancy(Keep(init, init, removed), last);
      } else {
        assert Keep(ts, ts, removed) == Keep(init, init, removed);
      }
    }
  }

  /** After a sweep, the kept tiles still list the kept enemies, one per tile. */
  lemma SweepKeepsTracking(es: seq<Enemy>, ts: seq<Tile>, removed: set<Tile>)
    requires Tracks(es, ts) && Distinct(ts)
    ensures Tracks(Keep(es, ts, removed), Keep(ts, ts, removed))
    ensures Distinct(Keep(ts, ts, removed))
    ensures Elems(Keep(ts, ts, removed)) == Elems(ts) - removed
  {
    KeepTracks(es, ts, removed);
    FilterKeepsOccupancy(ts, removed);
  }

  /** A sweep that removes no tile keeps every entry. */
  lemma {:induction false} KeepAll<T>(xs: seq<T>, ts: seq<Tile>)
    requires |xs| == |ts|
    ensures Keep(xs, ts, {}) == xs
  {
    if xs != [] {
      var n := |xs| - 1;
      KeepAll(xs[..n], ts[..n]);
      assert xs == xs[..n] + [xs[n]];
    }
  }

  /** The count of enemies a blast removes, as the loop over the enemy list computes it. */
  method Survivors(es: seq<Enemy>, removed: seq<Tile>, ghost ts: seq<Tile>) returns (kept: seq<Enemy>, count: nat)
    requires Tracks(es, ts)
    ensures kept == Keep(es, ts, Elems(removed))
    ensures count == |es| - |kept|
  {
    kept := [];
    count := 0;
    for i := 0 to |es|
      invariant kept == Keep(es[..i], ts[..i], Elems(removed))
      invariant count == i - |kept|
    {
      assert es[..i + 1][..i] == es[..i];
      assert ts[..i + 1][..i] == ts[..i];
      if es[i].CurrentTile() in removed {
        count := count + 1;
        continue;
      }
      kept := kept + [es[i]];
    }
    assert es[..|es|] == es && ts[..|ts|] == ts;
  }

  /** An enemy's update leaves it in place or moves it to a free neighbour. */
  predicate Stepped(was: Tile, now: Tile, blocked: set<Tile>) {
    now == was || (Adjacent(now, was) && now !in blocked)
  }

  /** How long an enemy waits after a due update: the level's interval when walking at random, `delay` when chasing. */
  function Wait(mode: Mode, level: int, delay: int): int {
    if mode == Random then RandomInterval(level) else delay
  }

  /** The tile an enemy on `cur` holds after its update: its next step when it is due and has one, else `cur`. */
  function Landing(due: bool, mode: Mode, cur: Tile, pt: Tile, blocked: set<Tile>, occupied: set<Tile>,
                   order: seq<Tile>): Tile
  {
    if !due then cur
    else match NextStep(mode, cur, pt, blocked, occupied, order)
      case Some(t) => t
      case None => cur
  }

  /** An enemy's update leaves it where it was or moves it to a free neighbour. */
  lemma LandingStepped(due: bool, mode: Mode, cur: Tile, pt: Tile, blocked: set<Tile>, occupied: set<Tile>,
                       order: seq<Tile>)
    requires IsShuffle(order)
    ensures Stepped(cur, Landing(due, mode, cur, pt, blocked, occupied, order), blocked)
  {
    NextStepSafe(mode, cur, pt, blocked, occupied, order);
  }

  /**
   * The enemy loop as a reference on tiles: from enemy `i` on, each enemy
   * (due or not, per `due`) lands against the occupancy of the tiles so far,
   * and the loop ends right after the first enemy that lands on the
   * player's tile `pt`. The result is the final tiles, how many enemies
   * had their update, and whether one of them caught the player.
   */
  function Sweep(ts: seq<Tile>, due: seq<bool>, i: nat, mode: Mode, pt: Tile, blocked: set<Tile>,
                 orders: seq<seq<Tile>>): (r: (seq<Tile>, nat, bool))
    requires i <= |ts| && |due| == |ts| && |orders| == |ts|
    ensures |r.0| == |ts| && i <= r.1 <= |ts|
    decreases |ts| - i
  {
    if i == |ts| then (ts, i, false)
    else
      var t := Landing(due[i], mode, ts[i], pt, blocked, Elems(ts), orders[i]);
      if t == pt then (ts[i := t], i + 1, true)
      else Sweep(ts[i := t], due, i + 1, mode, pt, blocked, orders)
  }

  /**
   * The sweep touches only the enemies it runs, it stops exactly when the
   * last enemy it ran landed on `pt`, none before that one did, and it
   * runs to the end of the list unless it catches the player.
   */
  lemma {:induction false} SweepShape(ts: seq<Tile>, due: seq<bool>, i: nat, mode: Mode, pt: Tile,
                                      blocked: set<Tile>, orders: seq<seq<Tile>>)
    requires i <= |ts| && |due| == |ts| && |orders| == |ts|
    ensures var r := Sweep(ts, due, i, mode, pt, blocked, orders);
      && (forall j :: 0 <= j < i ==> r.0[j] == ts[j])
      && (forall j :: r.1 <= j < |ts| ==> r.0[j] == ts[j])
      && (r.2 <==> i < r.1 && r.0[r.1 - 1] == pt)
      && (!r.2 ==> r.1 == |ts|)
      && (forall j :: i <= j < r.1 - 1 ==> r.0[j] != pt)
    decreases |ts| - i
  {
    if i < |ts| {
      var t := Landing(due[i], mode, ts[i], pt, blocked, Elems(ts), orders[i]);
      if t != pt {
        SweepShape(ts[i := t], due, i + 1, mode, pt, blocked, orders);
      }
    }
  }

  /** The sweep moves each enemy at most one step onto a tile that is not blocked. */
  lemma {:induction false} SweepMoves(ts: seq<Tile>, due: seq<bool>, i: nat, mode: Mode, pt: Tile,
                                      blocked: set<Tile>, orders: seq<seq<Tile>>)
    requires i <= |ts| && |due| == |ts| && |orders| == |ts|
    requires forall k :: 0 <= k < |orders| ==> IsShuffle(orders[k])
    ensures var r := Sweep(ts, due, i, mode, pt, blocked, orders);
      forall j :: 0 <= j < |ts| ==> Stepped(ts[j], r.0[j], blocked)
    decreases |ts| - i
  {
    if i < |ts| {
      var t := Landing(due[i], mode, ts[i], pt, blocked, Elems(ts), orders[i]);
      LandingStepped(due[i], mode, ts[i], pt, blocked, Elems(ts), orders[i]);
      if t != pt {
        var next := ts[i := t];
        SweepMoves(next, due, i + 1, mode, pt, blocked, orders);
        SweepShape(next, due, i + 1, mode, pt, blocked, orders);
      }
    }
  }

  /** A sweep from the first enemy reports a catch exactly when some enemy ends on the player's tile. */
  lemma SweepCaught(ts: seq<Tile>, due: seq<bool>, mode: Mode, pt: Tile, blocked: set<Tile>, orders: seq<seq<Tile>>)
    requires |due| == |ts| && |orders| == |ts|
    ensures var r := Sweep(ts, due, 0, mode, pt, blocked, orders); r.2 <==> pt in r.0
  {
    SweepShape(ts, due, 0, mode, pt, blocked, orders);
  }

  /** One turn of `Sweep`: enemy `i` lands on `t`, and the sweep ends there or goes on from `i + 1`. */
  lemma SweepStep(ts: seq<Tile>, due: seq<bool>, i: nat, mode: Mode, pt: Tile, blocked: set<Tile>,
                  orders: seq<seq<Tile>>, t: Tile)
    requires i < |ts| && |due| == |ts| && |orders| == |ts|
    requires t == Landing(due[i], mode, ts[i], pt, blocked, Elems(ts), orders[i])
    ensures t == pt ==> Sweep(ts, due, i, mode, pt, blocked, orders) == (ts[i := t], i + 1, true)
    ensures t != pt ==> Sweep(ts, due, i, mode, pt, blocked, orders) == Sweep(ts[i := t], due, i + 1, mode, pt, blocked, orders)
  {
  }

  /** Each enemy's `nextMove`, in list order. */
  ghost function Clocks(es: seq<Enemy>): (r: seq<int>)
    reads es
    ensures |r| == |es| && forall j :: 0 <= j < |es| ==> r[j] == es[j].nextMove
  {
    seq(|es|, j requires 0 <= j < |es| reads es => es[j].nextMove)
  }

  /** For each clock, whether its enemy's update is due at `now`. */
  function Due(clocks: seq<int>, now: int): (r: seq<bool>)
    ensures |r| == |clocks| && forall j :: 0 <= j < |clocks| ==> r[j] == (now >= clocks[j])
  {
    seq(|clocks|, j requires 0 <= j < |clocks| => now >= clocks[j])
  }

  class Round {
    const level: int
    const maxEnemies: int
    const rigid: set<Tile>
    const player: Block
    const occ: Occupancy
    var soft: set<Tile>
    var enemies: seq<Enemy>
    var score: int
    var activeBomb: Option<Bomb>
    var lastSpawn: int
    var spawnDelay: int
    /** The enemies' tiles, in list order. */
    ghost var tiles: seq<Tile>
    /** The enemies' next-move times, in list order, while the enemy phase runs. */
    ghost var clocks: seq<int>

    /**
     * `tiles` lists the enemies' tiles, the occupancy set holds exactly those
     * tiles, and no two enemies share a tile (so no enemy is listed twice).
     */
    ghost predicate Valid()
      reads this`enemies, this`tiles, occ`tiles, enemies`pos
    {
      && Tracks(enemies, tiles)
      && Distinct(tiles)
      && occ.tiles == Elems(tiles)
    }

    /** `clocks` lists the enemies' next-move times. */
    ghost predicate Clocked()
      reads this`enemies, this`clocks, enemies`nextMove
    {
      |clocks| == |enemies| && forall j :: 0 <= j < |enemies| ==> enemies[j].nextMove == clocks[j]
    }

    /** The start of `game_screen`: the player on tile (2, 2), the level's layout, no enemies yet. */
    constructor (level: int, col: Colour, now: int, spawnDelay: int)
      requires 5000 <= spawnDelay <= 10000
      ensures Valid() && player.Valid() && fresh(player) && fresh(occ)
      ensures this.level == level && maxEnemies == EnemyCap(col)
      ensures rigid == GetLev(level).rigid && soft == GetLev(level).soft
      ensures player.pos == Corner(Tile(2, 2)) && !player.isMoving
      ensures enemies == [] && score == 0 && activeBomb == None
      ensures lastSpawn == now && this.spawnDelay == spawnDelay
    {
      this.level := level;
      maxEnemies := EnemyCap(col);
      player := new Block(2 * BlockSize, 2 * BlockSize);
      var layout := GetLev(level);
      rigid := layout.rigid;
      soft := layout.soft;
      occ := new Occupancy();
      enemies := [];
      tiles := [];
      clocks := [];
      score := 0;
      activeBomb := None;
      lastSpawn := now;
      this.spawnDelay := spawnDelay;
    }

    /** SPACE: drop a bomb on the player's tile unless one is already ticking. */
    method PlaceBomb(now: int)
      modifies this`activeBomb
      ensures old(activeBomb).Some? ==> activeBomb == old(activeBomb)
      ensures old(activeBomb).None? ==> activeBomb == Some(Bomb(player.CurrentTile(), now))
    {
      if activeBomb.None? {
        var gx := player.pos.x / BlockSize;
        var gy := player.pos.y / BlockSize;
        activeBomb := Some(Bomb(Tile(gx, gy), now));
      }
    }

    /**
     * The detonation: once the fuse has burnt down, the bomb is cleared and
     * explodes.
     */
    method Detonate(now: int) returns (outcome: Outcome)
      requires Valid()
      modifies this`activeBomb, this`soft, this`enemies, this`tiles, this`score, occ
      ensures Valid()
      ensures old(activeBomb).None? || now - old(activeBomb).value.placed < Fuse ==>
        unchanged(this) && unchanged(occ) && outcome == Continue
      ensures old(activeBomb).Some? && now - old(activeBomb).value.placed >= Fuse ==>
        var expl := Blast(old(activeBomb).value.tile, rigid, old(soft));
        var hit := Elems(expl) * old(occ.tiles);
        var killed := |old(enemies)| - |enemies|;
        && activeBomb.None?
        && soft == old(soft) - Elems(expl)
        && occ.tiles == old(occ.tiles) - Elems(expl)
        && enemies == (if hit == {} then old(enemies) else Keep(old(enemies), old(tiles), hit))
        && tiles == Keep(old(tiles), old(tiles), hit)
        && score == old(score) + Payout(level, killed)
        && outcome == (if level == 1 && killed > 0 then Win(score)
                       else if player.CurrentTile() in expl then Death(score)
                       else Continue)
    {
      if activeBomb.None? || now - activeBomb.value.placed < Fuse {
        return Continue;
      }
      var expl := ExplosionTiles(activeBomb.value.tile, rigid, soft);
      activeBomb := None;
      outcome := Explode(expl);
    }

    /**
     * The explosion over the tiles `expl`: the blast removes every soft tile
     * and every occupied tile it covers, drops the enemies standing on those
     * tiles and pays the bounty for each. On level 1 a kill wins the round
     * before the player's own tile is checked; otherwise a blast over the
     * player kills the player.
     */
    method Explode(expl: seq<Tile>) returns (outcome: Outcome)
      requires Valid()
      modifies this`soft, this`enemies, this`tiles, this`score, occ
      ensures Valid()
      ensures soft == old(soft) - Elems(expl)
      ensures occ.tiles == old(occ.tiles) - Elems(expl)
      ensures var hit := Elems(expl) * old(occ.tiles);
        enemies == (if hit == {} then old(enemies) else Keep(old(enemies), old(tiles), hit))
      ensures tiles == Keep(old(tiles), old(tiles), Elems(expl) * old(occ.tiles))
      ensures score == old(score) + Payout(level, |old(enemies)| - |enemies|)
      ensures outcome == (if level == 1 && |old(enemies)| - |enemies| > 0 then Win(score)
                          else if player.CurrentTile() in expl then Death(score)
                          else Continue)
    {
      ghost var hit := Elems(expl) * occ.tiles;
      var removed := ClearBlast(expl);
      var count := RemoveHit(removed, hit);
      score := score + Payout(level, count);
      if level == 1 && count > 0 {
        outcome := Win(score);
      } else if player.CurrentTile() in expl {
        outcome := Death(score);
      } else {
        outcome := Continue;
      }
    }

    /**
     * The blast loop of the detonation: every covered tile leaves the soft
     * set, and every covered tile an enemy holds leaves the occupancy set and
     * is recorded as removed.
     */
    method ClearBlast(expl: seq<Tile>) returns (removed: seq<Tile>)
      modifies this`soft, occ
      ensures soft == old(soft) - Elems(expl)
      ensures occ.tiles == old(occ.tiles) - Elems(expl)
      ensures Elems(removed) == Elems(expl) * old(occ.tiles)
    {
      removed := [];
      for i := 0 to |expl|
        invariant soft == old(soft) - Elems(expl[..i])
        invariant occ.tiles == old(occ.tiles) - Elems(expl[..i])
        invariant Elems(removed) == Elems(expl[..i]) * old(occ.tiles)
      {
        var t := expl[i];
        assert Elems(expl[..i + 1]) == Elems(expl[..i]) + {t};
        if t in soft {
          soft := soft - {t};
        }
        if t in occ.tiles {
          assert Elems(removed + [t]) == Elems(removed) + {t};
          removed := removed + [t];
          occ.tiles := occ.tiles - {t};
        }
      }
      assert expl[..|expl|] == expl;
    }

    /**
     * The enemy sweep of the detonation: when some tile was removed, drop the
     * enemies standing on a removed tile, and count them.
     */
    method RemoveHit(removed: seq<Tile>, ghost hit: set<Tile>) returns (count: nat)
      requires Elems(removed) == hit
      requires Tracks(enemies, tiles) && Distinct(tiles)
      requires occ.tiles == Elems(tiles) - hit
      modifies this`enemies, this`tiles
      ensures Valid()
      ensures enemies == (if hit == {} then old(enemies) else Keep(old(enemies), old(tiles), hit))
      ensures tiles == Keep(old(tiles), old(tiles), hit)
      ensures count == |old(enemies)| - |enemies|
    {
      if removed == [] {
        assert hit == {};
        KeepAll(tiles, tiles);
        return 0;
      }
      assert removed[0] in hit;
      var kept;
      kept, count := Survivors(enemies, removed, tiles);
      SweepKeepsTracking(enemies, tiles, hit);
      enemies := kept;
      tiles := Keep(tiles, tiles, hit);
    }

    /** The first step of the enemy phase: rebuild the occupancy set from the enemies' tiles. */
    method SyncOccupancy()
      requires Tracks(enemies, tiles)
      modifies occ`tiles
      ensures occ.tiles == Elems(tiles)
    {
      var ts: set<Tile> := {};
      for i := 0 to |enemies|
        invariant ts == Elems(tiles[..i])
      {
        assert Elems(tiles[..i + 1]) == ts + {tiles[i]};
        ts := ts + {TileAt(enemies[i].pos)};
      }
      assert tiles[..|enemies|] == tiles;
      occ.tiles := ts;
    }

    /**
     * One `spawn_enemy` call on the board's current blocked set; a spawned
     * enemy joins the list.
     */
    method AddEnemy(draws: seq<Tile>, now: int, wait: int) returns (added: bool)
      requires Valid()
      requires |draws| > MaxAttempts
      requires forall i :: 0 <= i < |draws| ==> OnScreen(draws[i])
      requires 700 <= wait <= 1200
      modifies this`enemies, this`tiles, occ
      ensures Valid()
      ensures added <==>
        exists k :: 0 <= k < MaxAttempts && SpawnOk(draws[k], Blocked(rigid, soft), old(occ.tiles), player.CurrentTile())
      ensures !added ==> enemies == old(enemies) && tiles == old(tiles) && occ.tiles == old(occ.tiles)
      ensures added ==> |enemies| == |old(enemies)| + 1 && enemies[..|old(enemies)|] == old(enemies)
      ensures added ==> var e, t := enemies[|enemies| - 1], tiles[|tiles| - 1];
        && tiles == old(tiles) + [t]
        && fresh(e) && e.pos == Centre(t) && e.nextMove == now + wait
        && (exists k :: FirstSpawnOk(draws, Blocked(rigid, soft), old(occ.tiles), player.CurrentTile(), k) && draws[k] == t)
        && Interior(t)
    {
      ghost var pt := player.CurrentTile();
      var e := SpawnEnemy(Blocked(rigid, soft), player.pos, occ, draws, now, wait);
      added := e != null;
      if added {
        var t := e.CurrentTile();
        SpawnKeepsOccupancy(tiles, t);
        SpawnInsideField(t, rigid, soft, old(occ.tiles), pt);
        enemies := enemies + [e];
        tiles := tiles + [t];
      }
    }

    /**
     * The timed spawn of the frame loop: rounds that allow more than one
     * enemy add one once `spawnDelay` has passed since the last spawn, up to
     * the cap, and then draw the next delay.
     */
    method TimedSpawn(now: int, draws: seq<Tile>, wait: int, nextDelay: int)
      requires Valid()
      requires |draws| > MaxAttempts
      requires forall i :: 0 <= i < |draws| ==> OnScreen(draws[i])
      requires 700 <= wait <= 1200 && 5000 <= nextDelay <= 10000
      modifies this`enemies, this`tiles, this`lastSpawn, this`spawnDelay, occ
      ensures Valid()
      ensures |enemies| <= if old(|enemies|) < maxEnemies then maxEnemies else old(|enemies|)
      ensures !(maxEnemies > 1 && old(|enemies|) < maxEnemies && now - old(lastSpawn) >= old(spawnDelay)) ==>
        unchanged(this) && unchanged(occ)
      ensures maxEnemies > 1 && old(|enemies|) < maxEnemies && now - old(lastSpawn) >= old(spawnDelay) ==>
        (|enemies| > old(|enemies|) <==>
          exists k :: 0 <= k < MaxAttempts && SpawnOk(draws[k], Blocked(rigid, soft), old(occ.tiles), player.CurrentTile()))
      ensures |enemies| == old(|enemies|) ==>
        && enemies == old(enemies) && tiles == old(tiles) && occ.tiles == old(occ.tiles)
        && lastSpawn == old(lastSpawn) && spawnDelay == old(spawnDelay)
      ensures |enemies| > old(|enemies|) ==>
        var e, t := enemies[|enemies| - 1], tiles[|tiles| - 1];
        && enemies == old(enemies) + [e] && tiles == old(tiles) + [t]
        && fresh(e) && e.pos == Centre(t) && e.nextMove == now + wait
        && (exists k :: FirstSpawnOk(draws, Blocked(rigid, soft), old(occ.tiles), player.CurrentTile(), k) && draws[k] == t)
        && lastSpawn == now && spawnDelay == nextDelay
    {
      if maxEnemies > 1 && |enemies| < maxEnemies && now - lastSpawn >= spawnDelay {
        var added := AddEnemy(draws, now, wait);
        if added {
          lastSpawn := now;
          spawnDelay := nextDelay;
        }
      }
    }

    /**
     * One enemy's `update` within the enemy phase: the enemy lands where its
     * update takes it on the current occupancy, its clock advances when it
     * was due, and no other enemy changes.
     */
    method StepEnemy(i: nat, blocked: set<Tile>, pt: Tile, mode: Mode, now: int, order: seq<Tile>, delay: int)
      returns (t: Tile)
      requires Valid() && Clocked() && i < |enemies|
      requires IsShuffle(order) && 1200 <= delay <= 1400
      modifies occ, enemies[i], this`tiles, this`clocks
      ensures Valid() && Clocked()
      ensures tiles == old(tiles)[i := t]
      ensures Stepped(old(tiles)[i], t, blocked)
      ensures t == Landing(now >= old(clocks[i]), mode, old(tiles)[i], pt, blocked, Elems(old(tiles)), order)
      ensures clocks == old(clocks)[i := if now >= old(clocks[i]) then now + Wait(mode, level, delay) else old(clocks[i])]
    {
      var e := enemies[i];
      ghost var cur := tiles[i];
      ghost var fired := now >= e.nextMove;
      ghost var occupied := occ.tiles;
      ghost var step := NextStep(mode, cur, pt, blocked, occupied, order);
      ghost var tick := if fired then now + Wait(mode, level, delay) else clocks[i];
      forall j | 0 <= j < |enemies| && j != i
        ensures enemies[j] != e
      {
        assert tiles[j] != tiles[i];
      }
      NextStepSafe(mode, cur, pt, blocked, occupied, order);
      e.Update(blocked, pt, mode, occ, level, now, order, delay);
      t := TileAt(e.pos);
      if fired && step.Some? {
        TileAtCentre(step.value);
        MoveKeepsOccupancy(tiles, i, step.value);
      } else {
        assert t == cur;
        assert tiles[i := t] == tiles;
      }
      assert t == Landing(fired, mode, cur, pt, blocked, occupied, order);
      assert e.nextMove == tick;
      tiles := tiles[i := t];
      clocks := clocks[i := e.nextMove];
      forall j | 0 <= j < |enemies|
        ensures enemies[j].CurrentTile() == tiles[j] && enemies[j].nextMove == clocks[j]
      {
        if j != i {
          assert enemies[j].pos == old(enemies[j].pos);
        }
      }
    }

    /**
     * The enemy loop's state after `i` turns, from the tiles `start` and the
     * clocks `before` it began with: the round is consistent, the tiles are
     * where the reference sweep has brought them, and the first `i` enemies'
     * clocks have advanced if they were due.
     */
    ghost predicate Swept(i: nat, caught: bool, start: seq<Tile>, before: seq<int>, pt: Tile, blocked: set<Tile>,
                          mode: Mode, now: int, orders: seq<seq<Tile>>, delays: seq<int>)
      reads this, occ, enemies
    {
      && Valid() && Clocked()
      && |start| == |enemies| && |before| == |enemies| && |orders| == |enemies| && |delays| == |enemies|
      && i <= |enemies|
      && var due := Due(before, now);
         var goal := Sweep(start, due, 0, mode, pt, blocked, orders);
         && (!caught ==> Sweep(tiles, due, i, mode, pt, blocked, orders) == goal)
         && (caught ==> tiles == goal.0 && i == goal.1 && goal.2)
         && (forall j :: 0 <= j < i ==> clocks[j] == if due[j] then now + Wait(mode, level, delays[j]) else before[j])
         && (forall j :: i <= j < |clocks| ==> clocks[j] == before[j])
    }

    /** One turn of the enemy loop: enemy `i` has its update and the loop state advances past it. */
    method Turn(i: nat, blocked: set<Tile>, pt: Tile, mode: Mode, now: int, orders: seq<seq<Tile>>, delays: seq<int>,
                ghost start: seq<Tile>, ghost before: seq<int>)
      returns (caught: bool)
      requires Swept(i, false, start, before, pt, blocked, mode, now, orders, delays) && i < |enemies|
      requires IsShuffle(orders[i]) && 1200 <= delays[i] <= 1400
      modifies occ, enemies[i], this`tiles, this`clocks
      ensures Swept(i + 1, caught, start, before, pt, blocked, mode, now, orders, delays)
    {
      ghost var ts := tiles;
      var t := StepEnemy(i, blocked, pt, mode, now, orders[i], delays[i]);
      SweepStep(ts, Due(before, now), i, mode, pt, blocked, orders, t);
      caught := pt == t;
    }

    /**
     * The enemy phase of the frame: rebuild the occupancy set, then let each
     * enemy in turn update on the frame's blocked set; the player dies as
     * soon as an enemy ends up on the player's tile, and the enemies after
     * that one do not update.
     */
    method MoveEnemies(blocked: set<Tile>, mode: Mode, now: int, orders: seq<seq<Tile>>, delays: seq<int>)
      returns (outcome: Outcome)
      requires Valid()
      requires |orders| == |enemies| && |delays| == |enemies|
      requires forall i :: 0 <= i < |orders| ==> IsShuffle(orders[i])
      requires forall i :: 0 <= i < |delays| ==> 1200 <= delays[i] <= 1400
      modifies occ, enemies, this`tiles, this`clocks
      ensures Valid()
      ensures outcome == Continue || outcome == Death(score)
      ensures outcome.Death? <==> player.CurrentTile() in tiles
      ensures |tiles| == |old(tiles)|
      ensures forall i :: 0 <= i < |tiles| ==> Stepped(old(tiles)[i], tiles[i], blocked)
      ensures var res := Sweep(old(tiles), Due(old(Clocks(enemies)), now), 0, mode, player.CurrentTile(), blocked, orders);
        && tiles == res.0
        && forall j :: 0 <= j < |enemies| ==>
             enemies[j].nextMove ==
               if j < res.1 && now >= old(enemies[j].nextMove) then now + Wait(mode, level, delays[j])
               else old(enemies[j].nextMove)
    {
      ghost var before := Clocks(enemies);
      ghost var due := Due(before, now);
      ghost var pt := player.CurrentTile();
      SyncOccupancy();
      clocks := before;
      var caught := UpdateAll(blocked, player.CurrentTile(), mode, now, orders, delays);
      ghost var res := Sweep(old(tiles), due, 0, mode, pt, blocked, orders);
      SweepMoves(old(tiles), due, 0, mode, pt, blocked, orders);
      SweepCaught(old(tiles), due, mode, pt, blocked, orders);
      forall j | 0 <= j < |enemies|
        ensures enemies[j].nextMove ==
          if j < res.1 && now >= before[j] then now + Wait(mode, level, delays[j]) else before[j]
      {
      }
      outcome := if caught then Death(score) else Continue;
    }

    /**
     * The loop over the enemies that follows the occupancy rebuild: it runs
     * the enemies in list order as `Sweep` does and stops after the first
     * one that lands on the player's tile `pt`.
     */
    method UpdateAll(blocked: set<Tile>, pt: Tile, mode: Mode, now: int, orders: seq<seq<Tile>>, delays: seq<int>)
      returns (caught: bool)
      requires Valid() && Clocked()
      requires |orders| == |enemies| && |delays| == |enemies|
      requires forall i :: 0 <= i < |orders| ==> IsShuffle(orders[i])
      requires forall i :: 0 <= i < |delays| ==> 1200 <= delays[i] <= 1400
      modifies occ, enemies, this`tiles, this`clocks
      ensures Valid() && Clocked()
      ensures var res := Sweep(old(tiles), Due(old(clocks), now), 0, mode, pt, blocked, orders);
        && tiles == res.0 && caught == res.2
        && |clocks| == |old(clocks)|
        && forall j :: 0 <= j < |clocks| ==>
             clocks[j] == if j < res.1 && now >= old(clocks[j]) then now + Wait(mode, level, delays[j]) else old(clocks[j])
    {
      ghost var start := tiles;
      ghost var before := clocks;
      caught := false;
      var i := 0;
      while i < |enemies| && !caught
        invariant Swept(i, caught, start, before, pt, blocked, mode, now, orders, delays)
      {
        caught := Turn(i, blocked, pt, mode, now, orders, delays, start, before);
        i := i + 1;
      }
    }
  }
}
