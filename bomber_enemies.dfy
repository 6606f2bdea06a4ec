/**
 * Bomberman enemies: the random walk and the chase step of `Enemy.update`,
 * `spawn_enemy`, and the shared occupancy set (`enempos`) that both keep in
 * step with the enemies' tiles. The clock is the parameter `now`; each call
 * of `random.shuffle` on the four directions is the parameter `order` and
 * each `random.randint` is a parameter drawn from its range.
 */
module BomberEnemies {
  import opened Options
  import opened Basics
  import opened BomberGrid

  datatype Mode = Random | Chase

  /** The pause between two random-walk steps, by level. */
  function RandomInterval(level: int): (r: int)
    ensures 2500 <= r <= 3000
    ensures level != 2 && level != 3 ==> r == 3000
  {
    if level == 2 then 2800 else if level == 3 then 2500 else 3000
  }

  /** A tile an enemy standing on `cur` may step onto: not blocked, and not held by another enemy. */
  predicate Admissible(t: Tile, cur: Tile, blocked: set<Tile>, occupied: set<Tile>) {
    t !in blocked && (t !in occupied || t == cur)
  }

  /** The position of the first admissible candidate, or |cands| when there is none. */
  function FirstAdmissible(cands: seq<Tile>, cur: Tile, blocked: set<Tile>, occupied: set<Tile>): (i: nat)
    ensures i <= |cands|
    ensures forall j :: 0 <= j < i ==> !Admissible(cands[j], cur, blocked, occupied)
    ensures i < |cands| ==> Admissible(cands[i], cur, blocked, occupied)
  {
    if cands == [] then 0
    else if Admissible(cands[0], cur, blocked, occupied) then 0
    else 1 + FirstAdmissible(cands[1..], cur, blocked, occupied)
  }

  /** The loop shared by both modes: try the candidates in order and stop at the first admissible one. */
  method FirstOpenStep(cands: seq<Tile>, cur: Tile, blocked: set<Tile>, occupied: set<Tile>) returns (i: nat)
    ensures i == FirstAdmissible(cands, cur, blocked, occupied)
  {
    i := 0;
    while i < |cands|
      invariant i <= |cands|
      invariant forall j :: 0 <= j < i ==> !Admissible(cands[j], cur, blocked, occupied)
    {
      if cands[i] !in blocked && (cands[i] !in occupied || cands[i] == cur) {
        return;
      }
      i := i + 1;
    }
  }

  /** The four neighbours of `cur`, in the shuffled order. */
  function Neighbours(cur: Tile, order: seq<Tile>): (ns: seq<Tile>)
    ensures |ns| == |order|
    ensures forall i :: 0 <= i < |order| ==> ns[i] == Plus(cur, order[i])
  {
    seq(|order|, i requires 0 <= i < |order| => Plus(cur, order[i]))
  }

  /**
   * For a shuffle, the neighbours are four different tiles, and they are
   * exactly the tiles adjacent to `cur`.
   */
  lemma NeighboursAreAdjacent(cur: Tile, order: seq<Tile>)
    requires IsShuffle(order)
    ensures var ns := Neighbours(cur, order);
      && |ns| == 4
      && (forall i, j :: 0 <= i < j < |ns| ==> ns[i] != ns[j])
      && (forall t :: t in ns <==> Adjacent(t, cur))
  {
    var ns := Neighbours(cur, order);
    assert |multiset(order)| == |multiset(Directions)|;
    forall i, j | 0 <= i < j < |ns|
      ensures ns[i] != ns[j]
    {
      ShuffleDistinct(order, i, j);
    }
    forall t
      ensures t in ns <==> Adjacent(t, cur)
    {
      var d := Tile(t.x - cur.x, t.y - cur.y);
      AdjacentByStep(t, cur);
      if t in ns {
        var i :| 0 <= i < |ns| && ns[i] == t;
        ShuffleHasDirections(order, i);
      }
      if Adjacent(t, cur) {
        assert d in multiset(order);
        var i :| 0 <= i < |order| && order[i] == d;
        assert ns[i] == t;
      }
    }
  }

  function Sign(n: int): int {
    if n > 0 then 1 else if n < 0 then -1 else 0
  }

  /**
   * The tiles a chasing enemy tries first: one step along the axis with the
   * larger distance to the player (the y axis on a tie), then, if that step
   * moved, one step along the other axis, toward the player on that axis or
   * toward smaller coordinates when the player is level with the enemy on it.
   */
  function ChaseCandidates(cur: Tile, player: Tile): (cs: seq<Tile>)
    ensures |cs| == (if cur == player then 1 else 2)
    ensures cur == player ==> cs[0] == cur
    ensures cur != player ==> Adjacent(cs[0], cur) && Manhattan(cs[0], player) + 1 == Manhattan(cur, player)
    ensures Abs(player.x - cur.x) > Abs(player.y - cur.y) ==> cs[0].y == cur.y
    ensures Abs(player.x - cur.x) <= Abs(player.y - cur.y) ==> cs[0].x == cur.x
    ensures |cs| == 2 ==> Adjacent(cs[1], cur) && (cs[0].y == cur.y <==> cs[1].x == cur.x)
    ensures |cs| == 2 && cs[1].x == cur.x ==>
      cs[1].y == cur.y + (if player.y > cur.y then 1 else -1)
    ensures |cs| == 2 && cs[1].y == cur.y ==>
      cs[1].x == cur.x + (if player.x > cur.x then 1 else -1)
  {
    var dx := player.x - cur.x;
    var dy := player.y - cur.y;
    var stepX := if Abs(dx) > Abs(dy) then Sign(dx) else 0;
    var stepY := if Abs(dx) > Abs(dy) then 0 else Sign(dy);
    var first := [Tile(cur.x + stepX, cur.y + stepY)];
    var crossY := if stepX != 0 && stepY == 0 then [Tile(cur.x, cur.y + (if dy > 0 then 1 else -1))] else [];
    var crossX := if stepY != 0 && stepX == 0 then [Tile(cur.x + (if dx > 0 then 1 else -1), cur.y)] else [];
    first + crossY + crossX
  }

  /** The first admissible neighbour in the shuffled order, if any: the random walk. */
  function RandomStep(cur: Tile, blocked: set<Tile>, occupied: set<Tile>, order: seq<Tile>): (r: Option<Tile>)
    ensures r.Some? ==>
      exists i :: && 0 <= i < |order| && r.value == Plus(cur, order[i])
                  && Admissible(r.value, cur, blocked, occupied)
                  && forall j :: 0 <= j < i ==> !Admissible(Plus(cur, order[j]), cur, blocked, occupied)
    ensures r.None? ==> forall i :: 0 <= i < |order| ==> !Admissible(Plus(cur, order[i]), cur, blocked, occupied)
  {
    var around := Neighbours(cur, order);
    var i := FirstAdmissible(around, cur, blocked, occupied);
    if i < |around| then Some(around[i]) else None
  }

  /**
   * Where an enemy that is due to move goes: `None` when it stays put
   * without touching the occupancy set.
   */
  function NextStep(mode: Mode, cur: Tile, player: Tile, blocked: set<Tile>, occupied: set<Tile>,
                    order: seq<Tile>): (r: Option<Tile>)
    ensures r.Some? ==> Admissible(r.value, cur, blocked, occupied)
    ensures mode == Random ==> r == RandomStep(cur, blocked, occupied, order)
    ensures mode == Chase ==>
      var cs := ChaseCandidates(cur, player);
      if exists i :: 0 <= i < |cs| && Admissible(cs[i], cur, blocked, occupied) then
        exists i :: && 0 <= i < |cs| && r == Some(cs[i])
                    && forall j :: 0 <= j < i ==> !Admissible(cs[j], cur, blocked, occupied)
      else
        r == RandomStep(cur, blocked, occupied, order)
  {
    match mode
    case Random => RandomStep(cur, blocked, occupied, order)
    case Chase =>
      var cs := ChaseCandidates(cur, player);
      var c := FirstAdmissible(cs, cur, blocked, occupied);
      if c < |cs| then Some(cs[c]) else RandomStep(cur, blocked, occupied, order)
  }

  /**
   * Both modes move an enemy onto its own tile or a neighbouring one, never
   * onto a blocked tile nor onto a tile another enemy holds; they give up
   * only when no neighbour (nor, chasing, no candidate) is admissible.
   */
  lemma NextStepSafe(mode: Mode, cur: Tile, player: Tile, blocked: set<Tile>, occupied: set<Tile>,
                     order: seq<Tile>)
    requires IsShuffle(order)
    ensures var step := NextStep(mode, cur, player, blocked, occupied, order);
      && (step.Some? ==> (step.value == cur || Adjacent(step.value, cur)))
      && (step.Some? ==> step.value !in blocked && step.value !in occupied - {cur})
      && (step.None? ==> forall d :: IsDirection(d) ==> !Admissible(Plus(cur, d), cur, blocked, occupied))
  {
    var around := Neighbours(cur, order);
    var i := FirstAdmissible(around, cur, blocked, occupied);
    if i < |around| {
      ShuffleHasDirections(order, i);
    } else {
      forall d | IsDirection(d)
        ensures !Admissible(Plus(cur, d), cur, blocked, occupied)
      {
        assert d in multiset(order);
        var k :| 0 <= k < |order| && order[k] == d;
        assert around[k] == Plus(cur, d);
      }
    }
  }

  /**
   * A chasing enemy takes the step along the dominant axis whenever that
   * tile is admissible, and that step brings it one tile closer to the player.
   */
  lemma ChasePrefersDominantAxis(cur: Tile, player: Tile, blocked: set<Tile>, occupied: set<Tile>,
                                 order: seq<Tile>)
    requires Admissible(ChaseCandidates(cur, player)[0], cur, blocked, occupied)
    ensures NextStep(Chase, cur, player, blocked, occupied, order) == Some(ChaseCandidates(cur, player)[0])
    ensures cur != player ==>
      Manhattan(NextStep(Chase, cur, player, blocked, occupied, order).value, player) + 1 == Manhattan(cur, player)
  {
  }

  /** The shared occupancy set `enempos`. */
  class Occupancy {
    var tiles: set<Tile>

    constructor ()
      ensures tiles == {}
    {
      tiles := {};
    }
  }

  class Enemy {
    /** The centre pixel of the enemy's circle. */
    var pos: Pixel
    var nextMove: int

    constructor (centre: Pixel, nextMove: int)
      ensures pos == centre && this.nextMove == nextMove
    {
      pos := centre;
      this.nextMove := nextMove;
    }

    function CurrentTile(): Tile
      reads this`pos
    {
      TileAt(pos)
    }

    /**
     * `Enemy.update`: nothing happens before `nextMove`. When due, a random
     * walker takes the first admissible neighbour in the shuffled order and
     * waits the level's interval; a chaser waits `delay`, tries its chase
     * candidates and falls back to the random walk. A move takes the old
     * tile out of the occupancy set and puts the new one in.
     */
    method Update(blocked: set<Tile>, playerTile: Tile, mode: Mode, occ: Occupancy, level: int, now: int,
                  order: seq<Tile>, delay: int)
      requires IsShuffle(order)
      requires 1200 <= delay <= 1400
      modifies this, occ
      ensures now < old(nextMove) ==> unchanged(this) && unchanged(occ)
      ensures now >= old(nextMove) ==>
        var cur := old(CurrentTile());
        var step := NextStep(mode, cur, playerTile, blocked, old(occ.tiles), order);
        && nextMove == now + (if mode == Random then RandomInterval(level) else delay)
        && (step.None? ==> pos == old(pos) && occ.tiles == old(occ.tiles))
        && (step.Some? ==> pos == Centre(step.value) && occ.tiles == old(occ.tiles) - {cur} + {step.value})
    {
      if now < nextMove {
        return;
      }
      var cur := TileAt(pos);
      if mode == Random {
        var i := Walk(cur, blocked, occ, order);
        nextMove := now + RandomInterval(level);
        return;
      }
      nextMove := now + delay;
      var cs := ChaseCandidates(cur, playerTile);
      var c := FirstOpenStep(cs, cur, blocked, occ.tiles);
      if c < |cs| {
        occ.tiles := occ.tiles - {cur};
        pos := Centre(cs[c]);
        occ.tiles := occ.tiles + {cs[c]};
      } else {
        var i := Walk(cur, blocked, occ, order);
      }
    }

    /** The random-walk loop: step onto the first admissible neighbour in `order`, if any. */
    method Walk(cur: Tile, blocked: set<Tile>, occ: Occupancy, order: seq<Tile>) returns (i: nat)
      modifies this`pos, occ
      ensures var step := RandomStep(cur, blocked, old(occ.tiles), order);
        && (step.None? ==> pos == old(pos) && occ.tiles == old(occ.tiles))
        && (step.Some? ==> pos == Centre(step.value) && occ.tiles == old(occ.tiles) - {cur} + {step.value})
    {
      var around := Neighbours(cur, order);
      i := FirstOpenStep(around, cur, blocked, occ.tiles);
      if i < |around| {
        occ.tiles := occ.tiles - {cur};
        pos := Centre(around[i]);
        occ.tiles := occ.tiles + {around[i]};
      }
    }
  }

  /** `spawn_enemy` gives up after this many draws. */
  const MaxAttempts := 1000

  /** A drawn tile a new enemy may take: free, and more than three tiles from the player on some axis. */
  predicate SpawnOk(t: Tile, blocked: set<Tile>, occupied: set<Tile>, player: Tile) {
    t !in blocked && t !in occupied && !(Abs(t.x - player.x) <= 3 && Abs(t.y - player.y) <= 3)
  }

  /** Draw `k` is the first of the allowed draws that a new enemy may take. */
  predicate FirstSpawnOk(draws: seq<Tile>, blocked: set<Tile>, occupied: set<Tile>, player: Tile, k: int) {
    && 0 <= k < MaxAttempts && k < |draws|
    && SpawnOk(draws[k], blocked, occupied, player)
    && forall j :: 0 <= j < k ==> !SpawnOk(draws[j], blocked, occupied, player)
  }

  /**
   * The draw loop of `spawn_enemy`: each attempt takes the next random tile;
   * the attempt after the last allowed one gives up.
   */
  method ChooseSpawnTile(draws: seq<Tile>, blocked: set<Tile>, occupied: set<Tile>, player: Tile)
    returns (attempts: nat, chosen: Option<Tile>)
    requires |draws| > MaxAttempts
    requires forall i :: 0 <= i < |draws| ==> OnScreen(draws[i])
    ensures 1 <= attempts <= MaxAttempts + 1
    ensures forall j :: 0 <= j < attempts - 1 ==> !SpawnOk(draws[j], blocked, occupied, player)
    ensures chosen.Some? <==> attempts <= MaxAttempts
    ensures chosen.Some? ==> chosen.value == draws[attempts - 1] && OnScreen(chosen.value)
    ensures chosen.Some? ==> SpawnOk(chosen.value, blocked, occupied, player)
  {
    attempts := 0;
    while true
      invariant attempts <= MaxAttempts
      invariant forall j :: 0 <= j < attempts ==> !SpawnOk(draws[j], blocked, occupied, player)
      decreases MaxAttempts - attempts
    {
      var t := draws[attempts];
      attempts := attempts + 1;
      if attempts > MaxAttempts {
        return attempts, None;
      }
      if t in blocked {
        continue;
      }
      if t in occupied {
        continue;
      }
      if Abs(t.x - player.x) <= 3 && Abs(t.y - player.y) <= 3 {
        continue;
      }
      return attempts, Some(t);
    }
  }

  /**
   * `spawn_enemy`: places a new enemy on the centre of the first acceptable
   * draw and records its tile in the occupancy set, or gives up.
   */
  method SpawnEnemy(blocked: set<Tile>, playerPos: Pixel, occ: Occupancy, draws: seq<Tile>, now: int, wait: int)
    returns (e: Enemy?)
    requires |draws| > MaxAttempts
    requires forall i :: 0 <= i < |draws| ==> OnScreen(draws[i])
    requires 700 <= wait <= 1200
    modifies occ
    ensures e == null ==> occ.tiles == old(occ.tiles)
    ensures e == null ==>
      forall j :: 0 <= j < MaxAttempts ==> !SpawnOk(draws[j], blocked, old(occ.tiles), TileAt(playerPos))
    ensures e != null ==> fresh(e) && e.pos == Centre(e.CurrentTile()) && e.nextMove == now + wait
    ensures e != null ==> OnScreen(e.CurrentTile()) && SpawnOk(e.CurrentTile(), blocked, old(occ.tiles), TileAt(playerPos))
    ensures e != null ==> occ.tiles == old(occ.tiles) + {e.CurrentTile()}
    ensures e != null ==>
      exists k :: && 0 <= k < MaxAttempts && draws[k] == e.CurrentTile()
                  && SpawnOk(draws[k], blocked, old(occ.tiles), TileAt(playerPos))
                  && forall j :: 0 <= j < k ==> !SpawnOk(draws[j], blocked, old(occ.tiles), TileAt(playerPos))
  {
    var player := TileAt(playerPos);
    var attempts, chosen := ChooseSpawnTile(draws, blocked, occ.tiles, player);
    if chosen.None? {
      return null;
    }
    var t := chosen.value;
    occ.tiles := occ.tiles + {t};
    e := new Enemy(Centre(t), now + wait);
    TileAtCentre(t);
    assert draws[attempts - 1] == e.CurrentTile();
  }

  /** A spawned enemy on a board built from a well-formed layout stands inside the playing field. */
  lemma SpawnInsideField(t: Tile, rigid: set<Tile>, soft: set<Tile>, occupied: set<Tile>, player: Tile)
    requires OnScreen(t) && SpawnOk(t, Blocked(rigid, soft), occupied, player)
    ensures Interior(t) && t !in rigid && t !in soft
  {
    BorderIsOutsideInterior(t);
  }

  /** The set of tiles listed. */
  function Elems(ts: seq<Tile>): set<Tile> {
    set t | t in ts
  }

  /**
   * An occupancy set that lists the enemies' tiles, one enemy per tile, stays
   * exact when one enemy moves onto its own tile or onto a tile nobody holds.
   */
  lemma MoveKeepsOccupancy(ts: seq<Tile>, i: nat, t: Tile)
    requires Distinct(ts) && i < |ts|
    requires t !in Elems(ts) - {ts[i]}
    ensures Distinct(ts[i := t])
    ensures Elems(ts[i := t]) == Elems(ts) - {ts[i]} + {t}
  {
    var ts' := ts[i := t];
    forall u | u in Elems(ts) - {ts[i]} + {t}
      ensures u in Elems(ts')
    {
      if u != t {
        var k :| 0 <= k < |ts| && ts[k] == u;
        assert k != i;
        assert ts'[k] == u;
      } else {
        assert ts'[i] == t;
      }
    }
    forall u | u in Elems(ts')
      ensures u in Elems(ts) - {ts[i]} + {t}
    {
      var k :| 0 <= k < |ts'| && ts'[k] == u;
      if k != i {
        assert ts[k] == u && ts[k] != ts[i];
      }
    }
  }

  /** Adding the tile of a newly spawned enemy keeps the occupancy set exact. */
  lemma SpawnKeepsOccupancy(ts: seq<Tile>, t: Tile)
    requires Distinct(ts) && t !in Elems(ts)
    ensures Distinct(ts + [t]) && Elems(ts + [t]) == Elems(ts) + {t}
  {
  }
}
