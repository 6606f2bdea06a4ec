/**
 * The player's block (`Block`): a 50-pixel square that moves one tile at a
 * time. `TryMove` starts a move towards a neighbouring tile unless that tile
 * is blocked; `Update` places the block along the way and snaps it onto the
 * target once the move's 450 ms have passed.
 */
module BomberPlayer {
  import opened BomberGrid

  /** Division truncating toward zero, as Python's `int()` does to a quotient. */
  function TruncDiv(n: int, m: int): (q: int)
    requires m > 0
    ensures n >= 0 ==> 0 <= q && q * m <= n < (q + 1) * m
    ensures n < 0 ==> q <= 0 && (q - 1) * m < n <= q * m
  {
    if n >= 0 then
      FlooredQuotient(n, m);
      n / m
    else
      FlooredQuotient(-n, m);
      NegatedQuotient(-n, m, (-n) / m);
      -((-n) / m)
  }

  /** The floored quotient of a non-negative `p` by `m` is the `k` with `k * m <= p < (k + 1) * m`. */
  lemma FlooredQuotient(p: int, m: int)
    requires m > 0 && p >= 0
    ensures 0 <= p / m && (p / m) * m <= p < (p / m + 1) * m
  {
    var k := p / m;
    assert p == k * m + p % m;
    assert (k + 1) * m == k * m + m;
  }

  /** Negating a floored quotient `k` of `p` by `m` bounds `-p` from the other side. */
  lemma NegatedQuotient(p: int, m: int, k: int)
    requires m > 0 && k * m <= p < (k + 1) * m
    ensures (-k - 1) * m < -p <= (-k) * m
  {
    assert (-k) * m == -(k * m);
    assert (-k - 1) * m == -((k + 1) * m);
  }

  /**
   * The interpolated coordinate `int(start + (target - start) * elapsed / duration)`,
   * computed exactly: between the start and the target while the move lasts,
   * the start at its beginning and the target at its end.
   */
  function Interpolate(start: int, target: int, elapsed: int, duration: int): (r: int)
    requires duration > 0
    ensures 0 <= elapsed <= duration ==> Between(r, start, target)
    ensures elapsed == 0 ==> r == start
    ensures elapsed == duration ==> r == target
  {
    InterpolateBounds(start, target, elapsed, duration);
    TruncDiv(start * duration + (target - start) * elapsed, duration)
  }

  predicate Between(v: int, a: int, b: int) {
    (a <= v <= b) || (b <= v <= a)
  }

  lemma MulCancel(a: int, b: int, m: int)
    requires m > 0 && a * m < b * m
    ensures a < b
  {
  }

  lemma DivLower(n: int, m: int, lo: int)
    requires m > 0 && lo * m <= n
    ensures lo <= n / m
  {
    var q := n / m;
    assert n < (q + 1) * m;
    MulCancel(lo, q + 1, m);
  }

  lemma DivUpper(n: int, m: int, hi: int)
    requires m > 0 && n <= hi * m
    ensures n / m <= hi
  {
    var q := n / m;
    assert q * m <= n;
    assert hi * m < (hi + 1) * m;
    MulCancel(q, hi + 1, m);
  }

  lemma TruncDivBounds(n: int, m: int, lo: int, hi: int)
    requires m > 0 && lo * m <= n <= hi * m
    ensures lo <= TruncDiv(n, m) <= hi
  {
    if n >= 0 {
      DivLower(n, m, lo);
      DivUpper(n, m, hi);
    } else {
      assert (-hi) * m <= -n <= (-lo) * m;
      DivLower(-n, m, -hi);
      DivUpper(-n, m, -lo);
    }
  }

  lemma MulBetween(s: int, d: int, e: int, m: int)
    requires m > 0 && 0 <= e <= m
    ensures Between(s * m + d * e, s * m, (s + d) * m)
  {
    if d >= 0 {
      assert d * e <= d * m;
    } else {
      assert d * e >= d * m;
    }
  }

  /** The bounds behind `Interpolate`'s contract, on the numerator it truncates. */
  lemma InterpolateBounds(start: int, target: int, elapsed: int, duration: int)
    requires duration > 0
    ensures var q := TruncDiv(start * duration + (target - start) * elapsed, duration);
      && (0 <= elapsed <= duration ==> Between(q, start, target))
      && (elapsed == 0 ==> q == start)
      && (elapsed == duration ==> q == target)
  {
    if 0 <= elapsed <= duration {
      InterpolateWithin(start, target, elapsed, duration);
    }
    if elapsed == 0 {
      InterpolateAtStart(start, target, duration);
    }
    if elapsed == duration {
      InterpolateAtEnd(start, target, duration);
    }
  }

  /** When the move begins, no time has passed and the quotient is the start. */
  lemma InterpolateAtStart(start: int, target: int, duration: int)
    requires duration > 0
    ensures TruncDiv(start * duration + (target - start) * 0, duration) == start
  {
    var n := start * duration + (target - start) * 0;
    assert n == start * duration;
    TruncDivBounds(n, duration, start, start);
  }

  /** When the move's whole duration has passed, the quotient is the target. */
  lemma InterpolateAtEnd(start: int, target: int, duration: int)
    requires duration > 0
    ensures TruncDiv(start * duration + (target - start) * duration, duration) == target
  {
    var n := start * duration + (target - start) * duration;
    assert (target - start) * duration == target * duration - start * duration;
    assert n == target * duration;
    TruncDivBounds(n, duration, target, target);
  }

  /** While the move lasts, the truncated quotient lies between the start and the target. */
  lemma InterpolateWithin(start: int, target: int, elapsed: int, duration: int)
    requires duration > 0 && 0 <= elapsed <= duration
    ensures Between(TruncDiv(start * duration + (target - start) * elapsed, duration), start, target)
  {
    var n := start * duration + (target - start) * elapsed;
    MulBetween(start, target - start, elapsed, duration);
    assert (start + (target - start)) * duration == target * duration;
    if start <= target {
      TruncDivBounds(n, duration, start, target);
    } else {
      TruncDivBounds(n, duration, target, start);
    }
  }

  class Block {
    const size: int
    const moveDuration: int
    /** The top-left pixel of the block's rectangle. */
    var pos: Pixel
    var isMoving: bool
    var startPos: Pixel
    var targetPos: Pixel
    var moveStart: int

    ghost predicate Valid()
      reads this
    {
      size == BlockSize && moveDuration == 450
    }

    constructor (x: int, y: int)
      ensures Valid()
      ensures pos == Pixel(x, y) && !isMoving && startPos == pos && targetPos == pos && moveStart == 0
    {
      size := BlockSize;
      moveDuration := 450;
      pos := Pixel(x, y);
      isMoving := false;
      startPos := Pixel(x, y);
      targetPos := Pixel(x, y);
      moveStart := 0;
    }

    /** The tile the block currently stands on, by its top-left pixel. */
    function CurrentTile(): Tile
      reads this
    {
      TileAt(pos)
    }

    /**
     * `try_move`: ignored while a move is under way; otherwise starts a move
     * one tile in direction (dx, dy) exactly when that tile is not blocked.
     */
    method TryMove(dx: int, dy: int, blocked: set<Tile>, now: int)
      requires Valid()
      modifies this
      ensures Valid()
      ensures old(isMoving) ==> unchanged(this)
      ensures !old(isMoving) ==>
        var target := Pixel(old(pos.x) + dx * size, old(pos.y) + dy * size);
        if TileAt(target) !in blocked then
          isMoving && startPos == old(pos) && targetPos == target && moveStart == now && pos == old(pos)
        else
          unchanged(this)
    {
      if isMoving {
        return;
      }
      var newX := pos.x + dx * size;
      var newY := pos.y + dy * size;
      var gx := newX / size;
      var gy := newY / size;
      if Tile(gx, gy) !in blocked {
        startPos := pos;
        targetPos := Pixel(newX, newY);
        isMoving := true;
        moveStart := now;
      }
    }

    /**
     * `update`: during a move, puts the block `elapsed / moveDuration` of the
     * way from the start to the target; once that fraction reaches 1, puts it
     * on the target and ends the move.
     */
    method Update(now: int)
      requires Valid()
      modifies this
      ensures Valid()
      ensures !old(isMoving) ==> unchanged(this)
      ensures old(isMoving) ==> unchanged(this`startPos, this`targetPos, this`moveStart)
      ensures old(isMoving) && now - old(moveStart) >= moveDuration ==>
        !isMoving && pos == old(targetPos)
      ensures old(isMoving) && now - old(moveStart) < moveDuration ==>
        && isMoving
        && pos == Pixel(Interpolate(old(startPos.x), old(targetPos.x), now - old(moveStart), moveDuration),
                        Interpolate(old(startPos.y), old(targetPos.y), now - old(moveStart), moveDuration))
      ensures old(isMoving) && 0 <= now - old(moveStart) < moveDuration ==>
        Between(pos.x, old(startPos.x), old(targetPos.x)) && Between(pos.y, old(startPos.y), old(targetPos.y))
    {
      if isMoving {
        var elapsed := now - moveStart;
        if elapsed >= moveDuration {
          isMoving := false;
          pos := targetPos;
        } else {
          pos := Pixel(Interpolate(startPos.x, targetPos.x, elapsed, moveDuration),
                       Interpolate(startPos.y, targetPos.y, elapsed, moveDuration));
        }
      }
    }
  }

  /**
   * A block standing on tile `t` that tries a unit step towards a tile that is
   * not blocked ends up moving onto exactly that tile; with the blocked set of
   * a well-formed board, that tile is never on the border.
   */
  lemma StepTarget(t: Tile, d: Tile)
    requires IsDirection(d)
    ensures TileAt(Pixel(Corner(t).x + d.x * BlockSize, Corner(t).y + d.y * BlockSize)) == Plus(t, d)
    ensures Adjacent(Plus(t, d), t)
  {
    TileAtCorner(Plus(t, d));
  }

  /** A step from an interior tile into a tile outside `Blocked` stays in the interior and off every layout tile. */
  lemma StepStaysInside(t: Tile, d: Tile, rigid: set<Tile>, soft: set<Tile>)
    requires Interior(t) && IsDirection(d)
    requires Plus(t, d) !in Blocked(rigid, soft)
    ensures Interior(Plus(t, d)) && Plus(t, d) !in rigid && Plus(t, d) !in soft
  {
    var n := Plus(t, d);
    assert OnScreen(n);
    BorderIsOutsideInterior(n);
  }
}
