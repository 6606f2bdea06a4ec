/**
 * The three Bomberman level layouts and `getlev`. Each layout is a pair of
 * tile sets, rigid (indestructible) and soft (destroyed by blasts), and every
 * layout function ends by clamping both sets to the rectangle 2..17 x 2..9
 * and dropping soft tiles that are also rigid.
 */
module BomberLevels {
  import opened BomberGrid

  datatype Layout = Layout(rigid: set<Tile>, soft: set<Tile>)

  /** Every tile inside the rectangle, rigid and soft disjoint. */
  predicate WellFormed(l: Layout) {
    && (forall t :: t in l.rigid ==> Interior(t))
    && (forall t :: t in l.soft ==> Interior(t))
    && l.rigid !! l.soft
  }

  /** The clamp that closes every layout function. */
  function Clamp(rigid: set<Tile>, soft: set<Tile>): (l: Layout)
    ensures WellFormed(l)
    ensures forall t :: t in l.rigid <==> t in rigid && Interior(t)
    ensures forall t :: t in l.soft <==> t in soft && Interior(t) && t !in rigid
  {
    var goodRigid := set t | t in rigid && Interior(t);
    Layout(goodRigid, set t | t in soft && Interior(t) && t !in goodRigid)
  }

  function Level1Layout(): (l: Layout)
    ensures WellFormed(l)
  {
    Clamp({Tile(9, 6), Tile(12, 5)},
          {Tile(6, 3), Tile(11, 3), Tile(6, 7), Tile(11, 7), Tile(8, 6), Tile(10, 6)})
  }

  /** Columns 4, 10 and 15 of rigid tiles over rows 3..8, with gaps at (10, 5) and (10, 7). */
  function Level2Rigid(): set<Tile> {
    set col, y | col in {4, 10, 15} && 3 <= y < 9 && !(col == 10 && (y == 5 || y == 7)) :: Tile(col, y)
  }

  function Level2Soft(): set<Tile> {
    set t | t in [Tile(5, 3), Tile(6, 3), Tile(7, 3), Tile(6, 5), Tile(7, 5), Tile(8, 5), Tile(5, 6), Tile(6, 6), Tile(7, 6),
     Tile(8, 4), Tile(9, 4), Tile(11, 4), Tile(10, 5), Tile(12, 5), Tile(13, 5), Tile(11, 7), Tile(12, 7), Tile(13, 7),
     Tile(9, 8), Tile(11, 8), Tile(16, 8)]
  }

  function Level2Layout(): (l: Layout)
    ensures WellFormed(l)
  {
    Clamp(Level2Rigid(), Level2Soft())
  }

  /** The tile column and row through the middle of the rectangle. */
  const CentreX := (2 + 17) / 2
  const CentreY := (2 + 9) / 2

  /**
   * Level 3: a rigid tile on every interior cell with both coordinates even;
   * soft tiles on the remaining cells with (x + 2y) even, outside the corner
   * x <= 4 && y <= 4; then column CentreX, row CentreY and the corner
   * 2..5 x 2..5 are cleared of soft tiles.
   */
  function Level3Layout(): (l: Layout)
    ensures WellFormed(l)
  {
    Clamp(Level3RigidTiles(), Level3SoftTiles())
  }

  /** Level 3's rigid candidates: every cell of the rectangle with both coordinates even. */
  function Level3RigidTiles(): set<Tile> {
    set x, y | 2 <= x < 18 && 2 <= y < 10 && x % 2 == 0 && y % 2 == 0 :: Tile(x, y)
  }

  /** Level 3's soft candidates, before the clamp. */
  function Level3SoftTiles(): set<Tile> {
    var candidates := set x, y | 2 <= x < 18 && 2 <= y < 10 && Tile(x, y) !in Level3RigidTiles() :: Tile(x, y);
    var soft := set t | t in candidates && !(t.x <= 4 && t.y <= 4) && (t.x + 2 * t.y) % 2 == 0;
    var column := set y | 2 <= y < 10 :: Tile(CentreX, y);
    var row := set x | 2 <= x < 18 :: Tile(x, CentreY);
    var corner := set x, y | 2 <= x < 6 && 2 <= y < 6 :: Tile(x, y);
    soft - column - row - corner
  }

  /** `getlev`: the layout of levels 1 to 3, and level 1's for every other number. */
  function GetLev(level: int): (l: Layout)
    ensures WellFormed(l)
    ensures level != 2 && level != 3 ==> l == Level1Layout()
  {
    if level == 2 then Level2Layout()
    else if level == 3 then Level3Layout()
    else Level1Layout()
  }

  /** Level 3's rigid tiles are exactly the interior tiles with both coordinates even. */
  lemma Level3Rigid(t: Tile)
    ensures t in Level3Layout().rigid <==> Interior(t) && t.x % 2 == 0 && t.y % 2 == 0
  {
    if Interior(t) && t.x % 2 == 0 && t.y % 2 == 0 {
      assert Tile(t.x, t.y) in Level3RigidTiles();
    }
  }

  /**
   * Level 3's soft tiles in closed form: interior tiles with x even and y odd,
   * except row 5 and the corner 2..5 x 2..5.
   */
  lemma Level3Soft(t: Tile)
    ensures t in Level3Layout().soft <==>
      Interior(t) && t.x % 2 == 0 && t.y % 2 == 1 && t.y != CentreY && !(t.x <= 5 && t.y <= 5)
  {
    var candidates := set x, y | 2 <= x < 18 && 2 <= y < 10 && Tile(x, y) !in Level3RigidTiles() :: Tile(x, y);
    if Interior(t) && t.x % 2 == 0 && t.y % 2 == 1 {
      assert Tile(t.x, t.y) !in Level3RigidTiles();
      assert Tile(t.x, t.y) in candidates;
    }
  }

  /** The soft tiles of level 3 avoid the start corner, the centre column and the centre row. */
  lemma Level3SoftAvoidsCentreAndCorner(t: Tile)
    requires t in Level3Layout().soft
    ensures !(2 <= t.x <= 5 && 2 <= t.y <= 5) && t.x != 9 && t.y != 5
  {
    Level3Soft(t);
  }

  /** The player's start tile (2, 2) is free in level 1. */
  lemma StartTileLevel1()
    ensures Tile(2, 2) !in Level1Layout().rigid && Tile(2, 2) !in Level1Layout().soft
  {
  }

  /** The player's start tile (2, 2) is free in level 2. */
  lemma StartTileLevel2()
    ensures Tile(2, 2) !in Level2Layout().rigid && Tile(2, 2) !in Level2Layout().soft
  {
    assert Tile(2, 2) !in Level2Rigid();
    assert Tile(2, 2) !in Level2Soft();
  }

  /**
   * In level 3 the player's start tile (2, 2) is itself a rigid tile, but
   * its interior neighbours (3, 2) and (2, 3) are free, so the player can
   * still step off it.
   */
  lemma StartTileLevel3()
    ensures Tile(2, 2) in Level3Layout().rigid
    ensures Tile(3, 2) !in Level3Layout().rigid && Tile(3, 2) !in Level3Layout().soft
    ensures Tile(2, 3) !in Level3Layout().rigid && Tile(2, 3) !in Level3Layout().soft
  {
    Level3Rigid(Tile(2, 2));
    Level3Rigid(Tile(3, 2));
    Level3Soft(Tile(3, 2));
    Level3Rigid(Tile(2, 3));
    Level3Soft(Tile(2, 3));
  }
}
