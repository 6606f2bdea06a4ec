/**
 * The Bomberman screen as a grid of 50-pixel tiles: tile and pixel
 * coordinates, the two-thick border ring, and the set of tiles that the
 * frame's `draw_grid` call reports as blocked.
 */
module BomberGrid {
  import opened Basics

  /** A tile of the grid, in tile units. */
  datatype Tile = Tile(x: int, y: int)

  /** A point on the screen, in pixels. */
  datatype Pixel = Pixel(x: int, y: int)

  const ScreenWidth := 1000
  const ScreenHeight := 600
  /** The player's block size; every call site uses it as the tile size. */
  const BlockSize := 50
  const Columns := ScreenWidth / BlockSize
  const Rows := ScreenHeight / BlockSize

  /** The four unit steps, in the order the game lists them. */
  const Directions: seq<Tile> := [Tile(1, 0), Tile(-1, 0), Tile(0, 1), Tile(0, -1)]

  predicate OnScreen(t: Tile) {
    0 <= t.x < Columns && 0 <= t.y < Rows
  }

  /** The two-thick ring of tiles around the playing field. */
  predicate OnBorder(t: Tile) {
    OnScreen(t) && (t.x <= 1 || t.x >= Columns - 2 || t.y <= 1 || t.y >= Rows - 2)
  }

  /** The rectangle 2..17 x 2..9 that level layouts are clamped to. */
  predicate Interior(t: Tile) {
    2 <= t.x <= 17 && 2 <= t.y <= 9
  }

  /** Tiles one unit step apart. */
  predicate Adjacent(a: Tile, b: Tile) {
    Abs(a.x - b.x) + Abs(a.y - b.y) == 1
  }

  function Manhattan(a: Tile, b: Tile): nat {
    Abs(a.x - b.x) + Abs(a.y - b.y)
  }

  function Plus(t: Tile, d: Tile): Tile {
    Tile(t.x + d.x, t.y + d.y)
  }

  /** A unit step is one of the four entries of Directions. */
  predicate IsDirection(d: Tile) {
    d in Directions
  }

  /** The multiset of directions that a shuffle of Directions yields. */
  predicate IsShuffle(order: seq<Tile>) {
    multiset(order) == multiset(Directions)
  }

  lemma ShuffleHasDirections(order: seq<Tile>, i: int)
    requires IsShuffle(order) && 0 <= i < |order|
    ensures IsDirection(order[i])
  {
    assert order[i] in multiset(order);
  }

  /** A shuffle lists each of the four directions exactly once. */
  lemma ShuffleDistinct(order: seq<Tile>, i: int, j: int)
    requires IsShuffle(order) && 0 <= i < j < |order|
    ensures order[i] != order[j]
  {
    assert order[i] in multiset(order) && order[j] in multiset(order);
  }

  /** Two tiles are adjacent exactly when one is the other plus a unit step. */
  lemma AdjacentByStep(a: Tile, b: Tile)
    ensures Adjacent(a, b) <==> IsDirection(Tile(a.x - b.x, a.y - b.y))
  {
  }

  /**
   * The tile containing a pixel. Python's `//` floors and Dafny's `/` is
   * Euclidean; for the positive divisor BlockSize the two agree.
   */
  function TileAt(p: Pixel): Tile {
    Tile(p.x / BlockSize, p.y / BlockSize)
  }

  /** The top-left pixel of a tile. */
  function Corner(t: Tile): Pixel {
    Pixel(t.x * BlockSize, t.y * BlockSize)
  }

  /** The centre pixel of a tile, where enemies are drawn. */
  function Centre(t: Tile): Pixel {
    Pixel(t.x * BlockSize + BlockSize / 2, t.y * BlockSize + BlockSize / 2)
  }

  lemma TileAtCentre(t: Tile)
    ensures TileAt(Centre(t)) == t
  {
    var p := Centre(t);
    assert p.x == t.x * BlockSize + 25;
    assert p.y == t.y * BlockSize + 25;
  }

  lemma TileAtCorner(t: Tile)
    ensures TileAt(Corner(t)) == t
  {
  }

  /**
   * The border tiles: every on-screen tile in the two-thick ring, which are
   * exactly the on-screen tiles outside the layout rectangle.
   */
  function BorderTiles(): (b: set<Tile>)
    ensures forall t :: t in b <==> OnScreen(t) && !Interior(t)
  {
    set x, y | 0 <= x < Columns && 0 <= y < Rows && OnBorder(Tile(x, y)) :: Tile(x, y)
  }

  /** What `draw_grid` returns: the border ring, the rigid tiles and the soft tiles. */
  function Blocked(rigid: set<Tile>, soft: set<Tile>): set<Tile> {
    BorderTiles() + rigid + soft
  }

  /** On screen, the border ring is exactly the complement of the layout rectangle. */
  lemma BorderIsOutsideInterior(t: Tile)
    requires OnScreen(t)
    ensures OnBorder(t) <==> !Interior(t)
  {
  }

  /**
   * `draw_grid`: walks every screen tile and adds those of the border ring,
   * then adds every rigid and every soft tile. Drawing is not modelled.
   */
  method DrawGrid(rigid: set<Tile>, soft: set<Tile>) returns (blocked: set<Tile>)
    ensures forall t :: t in blocked <==> OnBorder(t) || t in rigid || t in soft
    ensures blocked == Blocked(rigid, soft)
  {
    blocked := {};
    for x := 0 to Columns
      invariant forall t :: t in blocked <==> OnBorder(t) && t.x < x
    {
      for y := 0 to Rows
        invariant forall t :: t in blocked <==> OnBorder(t) && (t.x < x || (t.x == x && t.y < y))
      {
        if x <= 1 || x >= Columns - 2 || y <= 1 || y >= Rows - 2 {
          blocked := blocked + {Tile(x, y)};
        }
      }
    }
    var rest := rigid;
    while rest != {}
      invariant rest <= rigid
      invariant forall t :: t in blocked <==> OnBorder(t) || t in rigid - rest
      decreases rest
    {
      var t :| t in rest;
      blocked := blocked + {t};
      rest := rest - {t};
    }
    rest := soft;
    while rest != {}
      invariant rest <= soft
      invariant forall t :: t in blocked <==> OnBorder(t) || t in rigid || t in soft - rest
      decreases rest
    {
      var t :| t in rest;
      blocked := blocked + {t};
      rest := rest - {t};
    }
  }
}
