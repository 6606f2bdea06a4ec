/**
 * The cross-shaped explosion of a Bomberman bomb: the bomb's own tile, then
 * up to two tiles in each of the four directions. A ray stops before the
 * screen edge and before a rigid tile, and stops after the first soft tile
 * it covers.
 */
module BomberBlast {
  import opened BomberGrid

  /** A bomb on a tile, with the time it was placed. */
  datatype Bomb = Bomb(tile: Tile, placed: int)

  /** Milliseconds from placing a bomb to its detonation. */
  const Fuse := 2500
  /** How many tiles a ray covers at most. */
  const Reach := 2

  function Offset(b: Tile, d: Tile, r: int): Tile {
    Tile(b.x + d.x * r, b.y + d.y * r)
  }

  /** The tiles a ray in direction `d` covers from distance `r` outward. */
  function Ray(b: Tile, d: Tile, rigid: set<Tile>, soft: set<Tile>, r: nat): seq<Tile>
    decreases Reach + 1 - r
  {
    if r > Reach then []
    else
      var t := Offset(b, d, r);
      if !OnScreen(t) || t in rigid then []
      else if t in soft then [t]
      else [t] + Ray(b, d, rigid, soft, r + 1)
  }

  /** The rays of the first `n` directions, one after the other. */
  function Rays(b: Tile, rigid: set<Tile>, soft: set<Tile>, n: nat): seq<Tile>
    requires n <= |Directions|
  {
    if n == 0 then [] else Rays(b, rigid, soft, n - 1) + Ray(b, Directions[n - 1], rigid, soft, 1)
  }

  /** The explosion list: the bomb's tile followed by the four rays. */
  function Blast(b: Tile, rigid: set<Tile>, soft: set<Tile>): seq<Tile> {
    [b] + Rays(b, rigid, soft, |Directions|)
  }

  /** The inner loop of the detonation, over distances 1 and 2 in one direction. */
  method CastRay(b: Tile, d: Tile, rigid: set<Tile>, soft: set<Tile>) returns (ray: seq<Tile>)
    ensures ray == Ray(b, d, rigid, soft, 1)
  {
    ray := [];
    for r := 1 to Reach + 1
      invariant ray + Ray(b, d, rigid, soft, r) == Ray(b, d, rigid, soft, 1)
    {
      var t := Tile(b.x + d.x * r, b.y + d.y * r);
      if t.x < 0 || t.x >= Columns || t.y < 0 || t.y >= Rows {
        return;
      }
      if t in rigid {
        return;
      }
      ray := ray + [t];
      if t in soft {
        return;
      }
    }
  }

  /** The tile list `expl` built by the detonation. */
  method ExplosionTiles(b: Tile, rigid: set<Tile>, soft: set<Tile>) returns (expl: seq<Tile>)
    ensures expl == Blast(b, rigid, soft)
  {
    expl := [b];
    for i := 0 to |Directions|
      invariant expl == [b] + Rays(b, rigid, soft, i)
    {
      var ray := CastRay(b, Directions[i], rigid, soft);
      expl := expl + ray;
    }
  }

  /**
   * Every tile strictly before distance `s` in direction `d`, from `r` on, is
   * on screen, not rigid and not soft; the tile at `s` is on screen and not rigid.
   */
  ghost predicate Clear(b: Tile, d: Tile, rigid: set<Tile>, soft: set<Tile>, r: int, s: int) {
    forall k :: r <= k <= s ==>
      OnScreen(Offset(b, d, k)) && Offset(b, d, k) !in rigid && (k < s ==> Offset(b, d, k) !in soft)
  }

  /** A ray adds at most one tile per remaining distance. */
  lemma {:induction false} RayLength(b: Tile, d: Tile, rigid: set<Tile>, soft: set<Tile>, r: nat)
    requires 1 <= r <= Reach + 1
    ensures |Ray(b, d, rigid, soft, r)| <= Reach + 1 - r
    decreases Reach + 1 - r
  {
    if r <= Reach {
      RayLength(b, d, rigid, soft, r + 1);
    }
  }

  /**
   * The tiles of a ray, in order: the k-th lies k steps further out, is on
   * screen and not rigid, and only the last one may be soft.
   */
  lemma {:induction false} RayTiles(b: Tile, d: Tile, rigid: set<Tile>, soft: set<Tile>, r: nat)
    requires 1 <= r
    ensures var ray := Ray(b, d, rigid, soft, r);
      forall k :: 0 <= k < |ray| ==>
        ray[k] == Offset(b, d, r + k) && OnScreen(ray[k]) && ray[k] !in rigid &&
        (k < |ray| - 1 ==> ray[k] !in soft)
    decreases Reach + 1 - r
  {
    if r <= Reach {
      RayTiles(b, d, rigid, soft, r + 1);
    }
  }

  /** A ray covers exactly the tiles it reaches with a clear path. */
  lemma {:induction false} RayCovers(b: Tile, d: Tile, rigid: set<Tile>, soft: set<Tile>, r: nat, t: Tile)
    requires 1 <= r
    ensures t in Ray(b, d, rigid, soft, r) <==>
      exists s :: r <= s <= Reach && t == Offset(b, d, s) && Clear(b, d, rigid, soft, r, s)
    decreases Reach + 1 - r
  {
    if r <= Reach {
      RayCovers(b, d, rigid, soft, r + 1, t);
      var u := Offset(b, d, r);
      if t in Ray(b, d, rigid, soft, r) {
        if t != u {
          var s :| r + 1 <= s <= Reach && t == Offset(b, d, s) && Clear(b, d, rigid, soft, r + 1, s);
          assert Clear(b, d, rigid, soft, r, s);
        } else {
          assert Clear(b, d, rigid, soft, r, r);
        }
      }
      if exists s :: r <= s <= Reach && t == Offset(b, d, s) && Clear(b, d, rigid, soft, r, s) {
        var s :| r <= s <= Reach && t == Offset(b, d, s) && Clear(b, d, rigid, soft, r, s);
        assert OnScreen(u) && u !in rigid;
        if s > r {
          assert u !in soft;
          assert Clear(b, d, rigid, soft, r + 1, s);
        }
      }
    }
  }

  /** Membership in the concatenated rays of the first `n` directions. */
  lemma {:induction false} RaysCover(b: Tile, rigid: set<Tile>, soft: set<Tile>, n: nat, t: Tile)
    requires n <= |Directions|
    ensures t in Rays(b, rigid, soft, n) <==>
      exists i, s :: 0 <= i < n && 1 <= s <= Reach && t == Offset(b, Directions[i], s) &&
        Clear(b, Directions[i], rigid, soft, 1, s)
  {
    if n > 0 {
      RaysCover(b, rigid, soft, n - 1, t);
      RayCovers(b, Directions[n - 1], rigid, soft, 1, t);
    }
  }

  /**
   * A tile is in the explosion exactly when it is the bomb's tile, or lies
   * one or two steps from it in one of the four directions with every tile
   * on the way on screen and not rigid, and every tile before it not soft.
   */
  lemma BlastCovers(b: Tile, rigid: set<Tile>, soft: set<Tile>, t: Tile)
    ensures t in Blast(b, rigid, soft) <==>
      t == b ||
      exists i, s :: 0 <= i < |Directions| && 1 <= s <= Reach && t == Offset(b, Directions[i], s) &&
        Clear(b, Directions[i], rigid, soft, 1, s)
  {
    RaysCover(b, rigid, soft, |Directions|, t);
  }

  /** The explosion starts at the bomb and adds at most Reach tiles per direction. */
  lemma {:induction false} BlastSize(b: Tile, rigid: set<Tile>, soft: set<Tile>, n: nat)
    requires n <= |Directions|
    ensures |Rays(b, rigid, soft, n)| <= Reach * n
    ensures Blast(b, rigid, soft)[0] == b
  {
    if n > 0 {
      BlastSize(b, rigid, soft, n - 1);
      RayLength(b, Directions[n - 1], rigid, soft, 1);
    }
  }
}
