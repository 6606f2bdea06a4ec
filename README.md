# Tile games: a Bomberman clone and a grid maze game

This project models the game logic of two small arcade games, `game.py` and
`maze.py`, in Dafny, and proves properties of that model.

`game.py` is a Bomberman clone on a 20 x 12 grid of 50-pixel tiles. Each
level has a layout of rigid and soft tiles clamped to the rectangle
2..17 x 2..9, and the screen edge is ringed by a two-thick border. The
player's block glides one tile at a time. Enemies wander at random or
chase the player, and they share an occupancy set (`enempos`). A bomb
detonates 2.5 s after it is dropped, in a cross of radius 2. The blast
stops before rigid tiles and the screen edge, and stops after the first
soft tile it reaches. It destroys the soft tiles and enemies it covers,
pays 100 points per kill (150 on level 3), wins level 1 on any kill, and
otherwise kills a player standing in it.

`maze.py` is a maze shooter.
- A recursive-backtracker `generate_maze` carves a 39 x 29 grid of walls
  (1) and paths (0) from cell (1, 1).
- The player walks from (1, 1) to the end cell (36, 26), one wall-checked
  step per arrow key held.
- Five enemies start on path cells of their own generated mazes. Every ten
  seconds each live one teleports onto a path cell of the maze being played.
- A thirty-second timer, or touching a live enemy, ends the game. The
  player then restarts (r) or quits (q).
- Reaching the end cell starts the next level.

Modules, one per file:
- `options.dfy` (`Options`): the `Option` datatype.
- `bomber_grid.dfy` (`BomberGrid`): tiles, pixels, the border ring and `draw_grid`'s blocked set.
- `bomber_levels.dfy` (`BomberLevels`): the three layouts and `getlev`.
- `bomber_player.dfy` (`BomberPlayer`): the `Block` class (`try_move`, `update`).
- `bomber_blast.dfy` (`BomberBlast`): the explosion tiles.
- `bomber_enemies.dfy` (`BomberEnemies`): the `Enemy` class, the occupancy set and `spawn_enemy`.
- `bomber_round.dfy` (`BomberRound`): the state of `game_screen`. This covers bomb placement, detonation, timed spawns and the enemy phase of a frame.
- `maze_gen.dfy` (`MazeGen`): `generate_maze` and `carve`, over an `array2<int>` indexed `maze[y, x]`.
- `maze_game.dfy` (`MazeGame`): enemy placement and teleport, collision, player movement, shooting, the timer, and a frame of `main`.

Randomness and clocks are parameters.
- `random.shuffle` of the four directions is a given order: a sequence
  with the same multiset as the direction list.
- `random.randint` draws are given sequences of tiles or cells.
- `random.randint` delays are given integers within the source's range.
- `pygame.time.get_ticks()` is a `now` argument.

Observations the proofs bring out, all faithful to the code:
- The level 3 layout puts a rigid tile on the player's start tile (2, 2)
  (`BomberLevels.StartTileLevel3`). The tiles around it are free, so the
  player can still move off it.
- Every carved cell has at least one odd coordinate. So `end_pos` (36, 26),
  with both coordinates even, is never carved. It is opened only by the
  explicit write after `generate_maze`. It sits beside the corridor into
  the generator's own end cell (37, 27), so it is still reachable from
  (1, 1) (`MazeGame.EndLinked`).
- The maze enemies are placed on mazes of their own: each enemy comes from
  a separate `generate_maze` call, not from the maze being played. An
  enemy can therefore start on a wall of the played maze, until its first
  teleport.
- The redraw loops of `Enemy.__init__` and `teleport` end only if some
  draw is a path cell. The model asks for a supply of draws that contains a
  cell with both coordinates odd. Every such cell is open in every
  generated maze, and a random supply holds one with probability 1.
- In the Bomberman frame, the enemy phase uses the blocked set computed
  at the start of the frame. After a detonation in the same frame, that
  set can still contain soft tiles that have just been destroyed.
  `Round.MoveEnemies` takes that set as a parameter, as the source does.

## Model

| member | source | states |
|---|---|---|
| BomberGrid.BorderTiles | game.py:322-329 | A tile is in the border set exactly when it is on screen and in the two-thick ring along the screen edge. |
| BomberGrid.BorderIsOutsideInterior | game.py:325-327 | An on-screen tile is in the border ring exactly when it is outside the layout rectangle 2..17 x 2..9. So clamped layout tiles never touch the border. |
| BomberGrid.DrawGrid | game.py:320-340 | The returned blocked set holds a tile exactly when that tile is on the border ring, rigid or soft. |
| BomberGrid.TileAtCentre | game.py:199-200 | An enemy put on the centre pixel of a tile is found on that same tile by the floor division the game uses. |
| BomberGrid.TileAtCorner | game.py:149-153 | The tile of a tile's top-left pixel is that tile. |
| BomberLevels.Clamp | game.py:103-111 | The result is well formed. Its rigid tiles are exactly the given rigid tiles inside the rectangle. Its soft tiles are exactly the given soft tiles inside the rectangle that are not rigid. |
| BomberLevels.Level1Layout | game.py:34-52 | Every level 1 tile lies in 2..17 x 2..9, and no tile is both rigid and soft. |
| BomberLevels.Level2Layout | game.py:54-73 | Every level 2 tile lies in 2..17 x 2..9, and no tile is both rigid and soft. |
| BomberLevels.Level3Layout | game.py:75-111 | Every level 3 tile lies in 2..17 x 2..9, and no tile is both rigid and soft. |
| BomberLevels.GetLev | game.py:113-117 | The layout is well formed. Any level number other than 2 and 3 gets the level 1 layout. |
| BomberLevels.Level3Rigid | game.py:76-80 | A tile is rigid in level 3 exactly when it is inside the rectangle and both its coordinates are even. |
| BomberLevels.Level3Soft | game.py:81-111 | Closed form of level 3's soft tiles: interior tiles with x even and y odd, except row 5 and the corner 2..5 x 2..5. |
| BomberLevels.Level3SoftAvoidsCentreAndCorner | game.py:91-102 | No level 3 soft tile lies in the start corner 2..5 x 2..5, in column 9 or in row 5. |
| BomberLevels.StartTileLevel1 | game.py:391-392 | The player's start tile (2, 2) is neither rigid nor soft in level 1. |
| BomberLevels.StartTileLevel2 | game.py:391-392 | The player's start tile (2, 2) is neither rigid nor soft in level 2. |
| BomberLevels.StartTileLevel3 | game.py:75-111 | In level 3 the player's start tile (2, 2) is a rigid tile. Its interior neighbours (3, 2) and (2, 3) are neither rigid nor soft. |
| BomberPlayer.TruncDiv | game.py:139-140 | The quotient is truncated toward zero, as `int()` does: the floor of n/m for n >= 0, the ceiling for negative n. |
| BomberPlayer.Interpolate | game.py:137-141 | While a move is under way, each interpolated and truncated coordinate lies between the start and the target. It is the start when no time has passed and exactly the target when the whole duration has. |
| BomberPlayer.Block.constructor | game.py:121-129 | A new block stands still at the given pixel, with a start and target equal to its position and a move duration of 450 ms. |
| BomberPlayer.Block.TryMove | game.py:146-157 | A call during a move changes nothing. Otherwise a move starts exactly when the tile one step in direction (dx, dy) is not blocked. It starts from the current position toward that tile, at `now`. |
| BomberPlayer.Block.Update | game.py:134-144 | A block at rest is unchanged. A moving block keeps its start, target and start time. Once the duration has passed, it lands on the target and stops. Before that it keeps moving, at the pixel `Interpolate` gives for each coordinate, between start and target. |
| BomberPlayer.StepTarget | game.py:149-153 | From a tile's corner, the target pixel of a unit step is on the neighbouring tile in that direction. |
| BomberPlayer.StepStaysInside | game.py:153-156 | From an interior tile, a step onto a tile outside the blocked set stays inside the rectangle and lands on neither a rigid nor a soft tile. |
| BomberBlast.CastRay | game.py:486-495 | The inner loop over distances 1 and 2 builds exactly the ray of the reference definition `Ray`. |
| BomberBlast.ExplosionTiles | game.py:482-495 | The detonation loop builds exactly the bomb tile followed by the four rays, in the order right, left, down, up. |
| BomberBlast.RayLength | game.py:486-495 | A ray holds at most two tiles. |
| BomberBlast.RayTiles | game.py:486-495 | The k-th tile of a ray is k+1 steps out from the bomb, on screen and not rigid. Only the last tile of a ray may be soft. |
| BomberBlast.RayCovers | game.py:486-495 | A ray covers a tile exactly when that tile is within reach, every tile up to it is on screen and not rigid, and every tile before it is not soft. |
| BomberBlast.RaysCover | game.py:484-495 | Membership in the rays of the first n directions is the same condition, for some one of those directions. |
| BomberBlast.BlastCovers | game.py:482-495 | A tile is in the explosion exactly when it is the bomb's tile or lies one or two steps away along a clear path in one of the four directions. |
| BomberBlast.BlastSize | game.py:483-486 | The explosion starts with the bomb tile and adds at most two tiles per direction. |
| BomberEnemies.RandomInterval | game.py:177-183 | The pause between random-walk steps is between 2.5 s and 3 s. Every level other than 2 and 3 waits 3 s. |
| BomberEnemies.FirstAdmissible | game.py:188-194 | The index returned is that of the first candidate that is unblocked and free of other enemies. It equals the length when there is none. |
| BomberEnemies.FirstOpenStep | game.py:188-202 | The loop over candidates stops at exactly the index of `FirstAdmissible`. |
| BomberEnemies.NeighboursAreAdjacent | game.py:186-190 | For a shuffle of the four directions, the candidates are four different tiles, and they are exactly the tiles adjacent to the enemy's tile. |
| BomberEnemies.ChaseCandidates | game.py:209-222 | When the enemy stands on the player's tile, the only candidate is that tile. Otherwise the first candidate lies along the axis of larger distance (ties go to y) and is one tile closer to the player. The second candidate is along the other axis. |
| BomberEnemies.RandomStep | game.py:186-202 | The random walk takes the first admissible neighbour in the shuffled order. It gives none exactly when no neighbour is admissible. |
| BomberEnemies.NextStep | game.py:177-252 | A step is always admissible. At random it is the random walk. Chasing, it is the first admissible chase candidate when there is one, and the random walk otherwise. |
| BomberEnemies.NextStepSafe | game.py:186-252 | In both modes, a move goes to the enemy's own tile or a neighbour. The destination is never blocked and never held by another enemy. The enemy stays put only when no neighbour is admissible. |
| BomberEnemies.ChasePrefersDominantAxis | game.py:214-234 | When the dominant-axis step is admissible, a chaser takes it, and the step brings it one tile closer to the player. |
| BomberEnemies.Occupancy.constructor | game.py:401 | The occupancy set starts empty. |
| BomberEnemies.Enemy.constructor | game.py:162-167 | An enemy starts at the given pixel with its first move time. |
| BomberEnemies.Enemy.Update | game.py:172-252 | Before its move time the enemy and the occupancy set are unchanged. Otherwise the next move time is set by mode and level. The enemy moves to the reference step `NextStep`, or stays if there is none. The occupancy set loses the old tile and gains the new one. |
| BomberEnemies.Enemy.Walk | game.py:186-202 | The random walk moves to the first admissible neighbour in the shuffled order. It updates the occupancy set to match, or changes nothing. |
| BomberEnemies.ChooseSpawnTile | game.py:348-360 | The chosen tile is the first draw that is unblocked, unoccupied and more than three tiles from the player on some axis. After 1000 rejected draws the call gives up. |
| BomberEnemies.SpawnEnemy | game.py:343-364 | Either no enemy is made and the occupancy set is unchanged (all 1000 draws were rejected). Or a fresh enemy stands on the centre of the first acceptable draw and its tile joins the occupancy set. |
| BomberEnemies.SpawnInsideField | game.py:355-360 | A tile accepted on a board from a well-formed layout lies inside the rectangle and is neither rigid nor soft. |
| BomberEnemies.MoveKeepsOccupancy | game.py:196-201 | Moving one enemy to a free tile keeps the enemies' tiles distinct. The set of tiles loses the old tile and gains the new one. |
| BomberEnemies.SpawnKeepsOccupancy | game.py:361 | Adding an enemy on a free tile keeps the tiles distinct and adds exactly that tile to the set. |
| BomberRound.EnemyCap | game.py:404-411 | The enemy cap is between 1 and 5, and above 1 exactly for green and yellow rounds. |
| BomberRound.Payout | game.py:514-517 | No kill pays nothing. Each kill pays at least 100 points, and exactly 150 only on level 3. |
| BomberRound.KeepTracks | game.py:506-513 | Filtering the enemies and their tiles with the same removed set keeps each surviving enemy matched with its tile. |
| BomberRound.FilterKeepsOccupancy | game.py:499-503 | The surviving tiles stay distinct, and their set is the old set minus the removed tiles. |
| BomberRound.SweepKeepsTracking | game.py:499-513 | After the sweep, the enemy list, the tile list and the occupancy set still agree. |
| BomberRound.KeepAll | game.py:504 | With nothing removed, the list is kept whole. |
| BomberRound.Survivors | game.py:505-513 | The sweep keeps, in order, exactly the enemies not on a removed tile, and counts the dropped ones. |
| BomberRound.LandingStepped | game.py:172-252 | An enemy's update leaves it where it was or moves it to a neighbour that is not blocked. |
| BomberRound.Sweep | game.py:532-539 | The reference enemy loop on tiles keeps one tile per enemy and runs from enemy i up to at most the whole list. `SweepShape`, `SweepMoves` and `SweepCaught` state what it does. |
| BomberRound.SweepShape | game.py:532-539 | The loop changes only the enemies it ran. It stops right after the first enemy that lands on the player's tile, no earlier enemy landed there, and it runs the whole list when none does. |
| BomberRound.SweepMoves | game.py:532-539 | After the loop, every enemy is within one step of where it was, never on a blocked tile. |
| BomberRound.SweepCaught | game.py:532-539 | The loop reports a catch exactly when some enemy ends on the player's tile. |
| BomberRound.Round.constructor | game.py:391-417 | A round starts with the level's layout and the colour's enemy cap, the player standing on tile (2, 2), no enemies, score 0 and no bomb. |
| BomberRound.Round.PlaceBomb | game.py:465-469 | A bomb is dropped on the player's tile only when none is ticking. Otherwise nothing changes. |
| BomberRound.Round.Detonate | game.py:480-525 | Before the fuse burns down, nothing changes. After it, the bomb is gone and the blast removes the soft and occupied tiles it covers. The enemies on those tiles are dropped and paid for. The outcome is a win on a level 1 kill, otherwise death when the player is in the blast. |
| BomberRound.Round.Explode | game.py:496-525 | For a given blast: soft and occupied tiles it covers are removed. The enemies on them are dropped in order. The score rises by the level's bounty per kill. The outcome checks the level 1 win before the player's death. |
| BomberRound.Round.ClearBlast | game.py:498-503 | Every covered tile leaves the soft set and the occupancy set. The removed list holds exactly the covered tiles that were occupied. |
| BomberRound.Round.RemoveHit | game.py:504-513 | When nothing was removed, the enemy list stays. Otherwise exactly the enemies on removed tiles are dropped, and the count is the number dropped. |
| BomberRound.Round.SyncOccupancy | game.py:531 | The occupancy set is rebuilt as exactly the set of the enemies' tiles. |
| BomberRound.Round.AddEnemy | game.py:420-423 | An enemy is added exactly when one of the 1000 draws is acceptable. It is then appended, fresh, on the centre of the first acceptable draw, an interior tile, with its first move time, and the tiles stay distinct. Otherwise nothing changes. |
| BomberRound.Round.TimedSpawn | game.py:449-455 | A spawn is tried only when the cap is above 1, not yet reached, and the delay has passed; otherwise nothing changes. When tried, an enemy is added exactly when an acceptable draw exists, on the first acceptable draw, and the spawn clock restarts at `now` with the next delay. A failed try changes nothing. |
| BomberRound.Round.StepEnemy | game.py:533 | Enemy i lands where `Landing` says: its `NextStep` against the current occupancy when its move time has come, else its own tile. Its clock advances by the mode's wait only when it was due. No other enemy's tile or clock changes, and the bookkeeping stays consistent. |
| BomberRound.Round.Turn | game.py:532-539 | One pass of the loop advances the loop state by one enemy, as `Sweep` does, and ends the loop when that enemy landed on the player's tile. |
| BomberRound.Round.MoveEnemies | game.py:531-539 | The occupancy set is rebuilt, then the enemies run as `Sweep` runs them from the old tiles and clocks. The tiles are the sweep's. Each enemy the sweep ran that was due has its clock advanced by its wait, and every other clock is unchanged. Every enemy stays within one step of where it was, never on a blocked tile. The outcome is death exactly when an enemy ends on the player's tile. |
| BomberRound.Round.UpdateAll | game.py:532-539 | The update loop ends where `Sweep` ends: the tiles are the sweep's and the catch is the sweep's, so it stops at the first enemy on the player's tile. Exactly the due enemies among those it ran have their clocks advanced. |
| MazeGen.TreePathWalks | maze.py:103-107 | The walk down the carve's spanning tree to a cell is a path of unit steps through open cells from (1, 1). |
| MazeGen.TreeLinks | maze.py:103-107 | A spanning tree of the open cells links every open cell to (1, 1). |
| MazeGen.AllTargetsReached | maze.py:99-110 | Once (1, 1) and every odd open cell have run their carve to the end, every odd cell within bounds is open. |
| MazeGen.RowReached | maze.py:102-107 | Under the same hypothesis, every odd cell of row 1 is settled. |
| MazeGen.ColumnReached | maze.py:102-107 | Under the same hypothesis, every odd cell of each odd column is settled. |
| MazeGen.SettledByShuffle | maze.py:100-104 | A cell whose carve has tried all four directions of its shuffle has every in-bounds target two steps away open. |
| MazeGen.StepInside | maze.py:103-106 | From an odd cell, the passage one step away is neither odd nor even-even, and the in-bounds target is odd. Both stay inside the walls. |
| MazeGen.TreeGrows | maze.py:105-107 | Hanging the passage under the current cell, and the new target under the passage, keeps a spanning tree. |
| MazeGen.CarvingGrows | maze.py:104-106 | Opening a passage and a fresh target keeps the carve's invariant: cells inside the walls, settled cells stay settled, and the tree spans the open cells. |
| MazeGen.CarveFinished | maze.py:109-111 | After the carve from (1, 1), every odd in-bounds cell is open. With odd sizes, the end cell is open and every open cell is linked to (1, 1). |
| MazeGen.OpenCell | maze.py:105-106 | Writing 0 into a cell makes the maze hold 0 exactly on the old open cells plus that one. |
| MazeGen.Carver.constructor | maze.py:97-109 | The carver starts on a maze whose only open cell is (1, 1), with nothing carved yet. |
| MazeGen.Carver.OpenPassage | maze.py:104-106 | The passage and the target are opened, the open set grows by exactly those two cells, and the invariant holds. |
| MazeGen.Carver.Carve | maze.py:99-107 | Open cells only grow. On return the cell and every odd cell opened during the call are settled, with every in-bounds neighbour target open. |
| MazeGen.Carver.Branch | maze.py:102-107 | After one loop pass, the target in that direction is out of bounds or open, and the settled tally is updated. |
| MazeGen.GenerateMaze | maze.py:96-112 | The maze has the requested size and holds 0 exactly on the open cells. (1, 1), the end cell and every odd in-bounds cell are open. With odd sizes, every open cell is inside the outer walls and linked to (1, 1). |
| MazeGame.PickOpenCell | maze.py:30-34 | The placement is the first draw that is not a wall: it is in range and a path cell. |
| MazeGame.OddDrawOpens | maze.py:32-34 | In a generated maze, a supply holding a cell with both coordinates odd holds a draw that is not a wall, so the redraw loop ends. |
| MazeGame.MazeEnemy.constructor | maze.py:29-36 | A new enemy stands on the first non-wall draw, alive, with its teleport clock at `now`. |
| MazeGame.MazeEnemy.Teleport | maze.py:38-43 | The enemy moves to the first non-wall draw of the given maze. |
| MazeGame.Collides | maze.py:89-93 | A collision is reported exactly when some live enemy is on the player's cell (`Caught`). |
| MazeGame.SpawnEnemies | maze.py:135 | Five fresh, distinct, live enemies, each on one of its own draws in range, with the teleport clock at `now`. |
| MazeGame.EndLinked | maze.py:139-140 | Opening `end_pos` in a connected generated maze keeps every open cell linked to (1, 1). |
| MazeGame.LevelMaze | maze.py:139-140 | A level's maze has 29 rows of 39 cells and holds 0 exactly on its open cells. Those cells lie inside the outer walls, include every odd cell and `end_pos`, and are all linked to (1, 1). |
| MazeGame.Attempt | maze.py:151-154 | One movement check moves the player one step exactly when the key is held and that cell is a path. Otherwise the player stays, always off the outer ring. |
| MazeGame.Walk | maze.py:151-166 | The four checks leave the player on its own cell or on a path cell, at most one step away on each axis, off the outer ring. |
| MazeGame.ShotDirectionFirstHeld | maze.py:169-176 | A bullet is fired exactly when a shooting key is held. Its direction is that of the first held key in the order w, a, s, d. |
| MazeGame.Remaining | maze.py:216-217 | The time left is never negative. It is 0 exactly when thirty seconds have passed, and otherwise adds up with the elapsed time to thirty seconds. |
| MazeGame.Game.constructor | maze.py:128-140 | Level 1, the player at (1, 1), the timer started, no bullets, and a laid maze with the player on a path cell. The five enemies are fresh, distinct and alive, with their teleport clocks at `now`, each on one of its own draws. |
| MazeGame.Game.StartLevel | maze.py:138-140 | A fresh laid maze for the level now starting. |
| MazeGame.Game.MovePlayer | maze.py:149-166 | The player ends where `Walk` puts it, so on a path cell of the laid maze. Indexing never leaves the maze. |
| MazeGame.Game.TryStep | maze.py:151-154 | One movement check, as `Attempt` defines it. |
| MazeGame.Game.Shoot | maze.py:168-176 | At most one bullet is appended (`Fired`): from the player's cell, in the direction `ShotDirection` gives. |
| MazeGame.Game.TeleportDue | maze.py:202-209 | The pass is `Teleported`. No enemy's `alive` changes. Every live enemy whose last teleport is at least ten seconds old moves to a path cell (its first non-wall draw), and its clock restarts at `now`. No other enemy moves or changes its clock. |
| MazeGame.Game.Steer | maze.py:149-176 | Movement and shooting happen only while the game is not over. The player ends where `Walk` puts it and the frame's bullet (`Fired` from that cell) is appended. When the game is over, the player and the bullets stay as they were. |
| MazeGame.Game.Check | maze.py:202-225 | The enemies go through the teleport pass (`Teleported`). After it, the game is over exactly when it already was, a live enemy is on the player's cell, or no time is left. |
| MazeGame.Game.Conclude | maze.py:227-266 | When the game is over, r restarts at level 1 and q, without r, quits. Otherwise the next level starts exactly when the player stands on `end_pos`. A new level has the player at (1, 1), the timer at `now`, game over cleared, no bullets and freshly spawned enemies. Any other outcome leaves the player, game over, level, timer, bullets and enemies as they were. |
| MazeGame.Game.Play | maze.py:149-225 | Let `cell` be the player after the movement checks, or the old player when the game was over. The player ends on `cell`. The frame's bullet is appended from `cell` only when the game was not over. The enemies go through the teleport pass. Game over then holds exactly when it already did, a live enemy is on `cell`, or no time is left. |
| MazeGame.Game.Reset | maze.py:237-245 | The level is restarted at the given number: player at (1, 1), timer at `now`, game over cleared, no bullets. The five enemies are fresh, distinct and alive, with their teleport clocks at `now`, each on one of its own draws. |
| MazeGame.Game.Frame | maze.py:142-266 | Let `cell` be the player after the movement checks, and `over` game over after the collision and timer checks. In every outcome the frame's enemies went through the teleport pass (`Teleported`), so `over` is read after the teleports. The frame starts a new level exactly when `over` holds and r is held, or `over` does not hold and `cell` is `end_pos`. It quits exactly when `over` holds and q is held but r is not. A new level is level 1 on restart and the next level on advance, with the player at (1, 1), the timer at `now`, no bullets and freshly spawned enemies. Otherwise the player is on `cell`, game over is `over`, the bullets gained the frame's shot from `cell` unless the game was already over, and the level, timer and enemy list stay. |
| MazeGame.RingedLaid | maze.py:151-166 | Every path cell of a laid maze is off the outer rows and columns. So the four movement checks never index outside the maze. |

## Left out

- Rendering, fonts, images, menus, buttons, pause, full-screen toggling and the event loop of both games are not modelled. Neither are `collisions.py` and `Milestone 1.py`; they are not part of this model.
- Randomness and clocks are parameters: shuffles, draws, delays and `now`. Each frame of the maze game uses one `now`, where the source reads the clock several times in one frame.
- BomberPlayer.Block.Update: the source interpolates in floating point (`prog` is a float). The model computes the exact rational value and truncates it toward zero, as `int()` does. Floating-point rounding is not modelled.
- The Bomberman key dispatch (game.py:473-478: one arrow key per frame, by priority) is left to the caller of `Block.TryMove`.
- The level 3 mode timer (game.py:435-446) is left to the caller too: the mode is a parameter of `Enemy.Update` and `Round.MoveEnemies`.
- The frame loop of `game_screen` is not modelled as one method. Its parts are the `Round` methods, called in the source's order.
- The win, death and menu screens are not modelled; `Outcome` reports which of them would follow.
- Bullets in the maze game move in floating point, leave the screen and kill enemies (maze.py:60-87, 193-200). This is not modelled, so enemies stay alive once spawned. `Shoot` still records each bullet fired.
- The maze game's quit key ends the process. The model returns `Quit` instead, and the window-close event is not modelled.
- MazeGame.Game.Frame: on `NewLevel` the source goes on to generate a new maze. The model leaves that to the caller through `StartLevel`, so `Frame` keeps the old maze, which stays valid.
- MazeGame.MazeEnemy.constructor: the redraw loop ends only on a draw that is not a wall. The model asks for a supply that contains such a draw. The source's endless loop on a supply of walls only is not modelled.
- The timer text (`remaining_time // 1000`) and the level text are display only.
