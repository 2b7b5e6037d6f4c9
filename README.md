# Galaga simulation core, modelled in Dafny

A model of the simulation state of a small Java Galaga clone. The Swing window and the painting are not modelled. What is modelled:

- **The game controller `GalagaGame`.** It holds:
  - the enemy formation, a column-by-row grid anchored at `enemyCorner`;
  - the player's fighter and the life markers;
  - the list of live shots;
  - the shared collision registry `collLibrary`;
  - the counters that the per-tick state machine `handleTick` updates: `score`, `level`, `playerLives`, `deadPlayerTimeout`, `lastFighterShot`, and the level's tunables.
- **The actors.** `Actor` and its subclasses are one class with a `kind` tag: enemy, projectile (player shot or enemy shot), fighter (controlled or life marker), or score display. So `instanceof` becomes a tag test. The anonymous overrides in the game are kind flags too: the fighter's death timeout, the player-shot scoring and the score display. The model covers, for each kind:
  - registration in the registry and removal from it;
  - moving, with the collision scan in registry order;
  - the vertex shape;
  - the collision response.
- **The swoop paths `TravelingPath`.** Each has a progress accumulator, a floored quadratic Bézier step over `real`, a retargetable end point, and the two `finished` hooks that the game installs (swoop out past the fighter, then swoop back into the formation).
- **The high-score table `HighScore`.** This covers the insertion-point search, the slot write, the letter wrapping of the name editor and the cursor clamp. The stored table is an input.

Files:

| file | models |
|---|---|
| `types.dfy` | points, dimensions, directions, the game's constants, Java's truncating `/`, the `tick % delay` test, and sequence helpers for the registry |
| `random.dfy` | `java.util.Random` as an input stream of draws |
| `actor.dfy` | `Actor`: its constructors, `dispose`, the flags, `setLocation` with the collision scan, `shift`, and the `handleCollision` dispatch |
| `enemy.dfy`, `projectile.dfy`, `player_fighter.dfy` | each subclass's shape and collision response |
| `traveling_path.dfy` | `TravelingPath` and the shared travel speed |
| `galaga_game.dfy` | `GalagaGame`: grid queries, formation movement, weapons, shots, level set-up, the tick, the constructor |
| `highscore.dfy` | `HighScore` and its static score table (module `HighScores`) |

Modelling choices:

- **Integers.** Integer arithmetic is unbounded; no counter in the source comes near 32-bit overflow. Java's `/` on `int` is `JavaDiv`, which truncates toward zero. The only `%` in the tick is tested against zero, and the zero test agrees between Java's `%` and Dafny's (`EveryNthMultiples`).
- **Randomness.** Each `new Random()` becomes the game's single `Random` input, an arbitrary stream of draws. `nextInt(b)` is `draw % b`.
- **Geometry.** The separating-axis overlap test is a function-valued input of the game (`overlapTest`). It keeps only the source's guard against actors without vertex arrays. The enemy's sixteen sin/cos vertices are an input too (`enemyVertex`).

## Model

| member | source | states |
|---|---|---|
| JavaDiv | src/Galaga/GalagaGame.java:237-238 | Java's `int` division truncates toward zero: the quotient and the remainder bounds on each side of zero |
| EveryNthMultiples | src/Galaga/GalagaGame.java:126 | the fire and dispatch cadence test holds exactly on the multiples of the delay, or always when the delay is 0, so `tick % 0` is never evaluated |
| RemoveFirstCutsFirstOccurrence | src/Galaga/Actor.java:40-42 | `ArrayList.remove` drops only the first occurrence and keeps the order of the other entries |
| RemoveFirstAt | src/Galaga/Actor.java:40-42 | when the first copy of an actor sits at index `i`, removal leaves exactly the entries before `i` followed by those after it |
| RemoveFirstAbsent | src/Galaga/Actor.java:40-42 | removing an actor that is not in the list leaves the list unchanged |
| Random.NextInt | src/Galaga/GalagaGame.java:144-145 | `nextInt(bound)` yields a value in `[0, bound)` determined by the next draw, and consumes exactly one draw |
| BaseOutline | src/Galaga/Projectile.java:61-64 | every kind's base outline has as many x as y vertices: four for a projectile, three for a fighter, none for the score display |
| OutlineTranslates | src/Galaga/Actor.java:232-237 | moving an actor by (dx, dy) moves every vertex of its regenerated outline by (dx, dy) |
| Translate | src/Galaga/Actor.java:234-237 | the in-place vertex loop adds dx to every x and dy to every y |
| Actor.Enemy | src/Galaga/Enemy.java:34-40 | a new enemy is alive, square, at the given location, with its outline generated there, and appended to the registry |
| Actor.Projectile | src/Galaga/Projectile.java:27-36 | a new shot is appended to the registry, placed at (x, y) with the given momentum and a 2 by 8 rectangle; the `setLocation` inside the constructor can only kill and only add score |
| Actor.PlayerFighter | src/Galaga/PlayerFighter.java:59-62 | a new fighter is alive, square, without vertex arrays yet, and appended to the registry |
| Actor.ScoreDisplay | src/Galaga/GalagaGame.java:71-90 | the score display is a registered actor without geometry |
| Actor.Dispose | src/Galaga/Actor.java:40-42 | disposal removes the actor's first registry entry and keeps the rest in order |
| Actor.SetPath | src/Galaga/Actor.java:48-50 | the path is replaced |
| Actor.SetAlive | src/Galaga/Actor.java:335-337 | the alive flag is set |
| Actor.SetCanCollide | src/Galaga/Actor.java:351-353 | the collision flag is set |
| Actor.GenerateRepresentation | src/Galaga/Actor.java:220 | fresh, distinct vertex arrays holding the kind's outline at the current position |
| Actor.SetLocation | src/Galaga/Actor.java:187-215 | sets the position and regenerates the outline before scanning. The scan fires only if the actor was alive and could collide. An entry is hit exactly when it passes the filter (not itself, alive, can collide, not enemy against enemy) and overlaps. The responses are appended pairwise in registry order. Score never drops and the dead stay dead |
| Actor.Overlaps | src/Galaga/Actor.java:58-64 | an actor without an x array, or facing one without, overlaps nothing; two rendered actors overlap exactly when the separating-axis test says so |
| Actor.ScanCollisions | src/Galaga/Actor.java:196-212 | an entry is hit exactly when, at the moment it is reached, the filter and the overlap test hold. Each hit appends this actor's response and then the other's |
| Actor.Visit | src/Galaga/Actor.java:203-209 | one registry entry is hit exactly when the filter and the overlap test hold as it is reached; a hit appends both responses and a miss appends none; scores never fall and dead actors stay dead |
| Actor.Exchange | src/Galaga/Actor.java:206-209 | the mover responds first, then the other actor |
| Actor.HandleCollision | src/Galaga/Actor.java:225 | the response by kind: an enemy follows the enemy rule; a shot kills both and scores `ShotBonus`; the controlled fighter only restarts the death timeout; the score display does nothing. No response revives anything |
| Actor.Move | src/Galaga/Projectile.java:41-44 | a shot moves by exactly its momentum and is re-outlined as a 2 by 8 rectangle there, with the collision scan of a move |
| Actor.ShiftAsWritten | src/Galaga/Actor.java:232-238 | as written, the position moves by (dx, dy) but the outline left behind is the one at twice the move, (x + 2dx, y + 2dy) |
| ShiftAsWrittenCounterexample | src/Galaga/Actor.java:232-238 | a shot at (0, 0) shifted by (1, 0) ends with x vertices 2, 4, 4, 2 where its position calls for 1, 3, 3, 1 |
| Actor.Shift | src/Galaga/Actor.java:232-237 | the corrected shift moves the position by (dx, dy) and leaves the outline at the new position |
| EnemyBaseOutline | src/Galaga/Enemy.java:51-61 | the enemy outline is a 16-gon |
| EnemyHandleCollision | src/Galaga/Enemy.java:69-80 | a dead enemy does nothing. A live enemy hit by a shot dies and leaves the shot alone. Hit by anything else, both die |
| ProjectileOutlineIsRectangle | src/Galaga/Projectile.java:61-69 | the shot outline is exactly (x, y), (x+2, y), (x+2, y+8), (x, y+8) |
| ShotBonus | src/Galaga/GalagaGame.java:316-327 | a player shot scores 20 for an enemy and 10 for a shot, and nothing else scores |
| ProjectileHandleCollision | src/Galaga/Projectile.java:76-79 | both actors die unconditionally, and the score rises by the shot's bonus |
| FighterOutlineIsTriangle | src/Galaga/PlayerFighter.java:31-44 | the fighter outline is exactly (x+w/2, y), (x+w, y+h), (x, y+h), with truncating division |
| FighterOutlineInBox | src/Galaga/PlayerFighter.java:36-43 | for a non-negative size every fighter vertex lies in the box [x, x+w] by [y, y+h] |
| FighterHandleCollision | src/Galaga/GalagaGame.java:57-63 | only the controlled fighter reacts: its death timeout restarts at 200; the base response changes nothing |
| TravelSpeed.constructor | src/Galaga/TravelingPath.java:16 | the shared travel distance starts at 1.5 |
| TravelSpeed.SetTravelDistance | src/Galaga/TravelingPath.java:38-40 | the shared distance is replaced |
| TravelSpeed.GetTravelDistance | src/Galaga/TravelingPath.java:34-36 | reads back the distance last set |
| Bezier | src/Galaga/TravelingPath.java:51-52 | the quadratic Bézier term is the start at t = 0 and the end at t = 1 |
| FlooredBezier | src/Galaga/TravelingPath.java:51-53 | the floored curve point is the start point at t = 0 and the end point at t = 1 |
| TravelingPath.constructor | src/Galaga/TravelingPath.java:23-32 | the start is the follower's position and the end is the destination. The control point is `(nextInt(width), nextInt(height - 100))`, inside the field less its bottom 100 rows. Progress is 0; two draws are consumed |
| TravelingPath.UpdateDestination | src/Galaga/TravelingPath.java:63-65 | only the end point changes |
| TravelingPath.Move | src/Galaga/TravelingPath.java:47-57 | progress grows by exactly the shared distance. The traveler lands on the floored curve point at t = progress/100. `finished` runs on this move exactly when progress exceeds 100, with no once-only guard. A swoop back retargets to its cell's slot |
| TravelingPath.Finished | src/Galaga/GalagaGame.java:170-185 | at the end of a swoop out, the enemy jumps to y = -100 and gets a fresh swoop back to its slot. At the end of a swoop back, the path is cleared and 5 points are scored, only the first time |
| GalagaGame.AnyAliveInRow | src/Galaga/GalagaGame.java:512-519 | true exactly when some enemy in the row is alive |
| GalagaGame.AnyAliveInCol | src/Galaga/GalagaGame.java:526-533 | true exactly when some enemy in the column is alive |
| GalagaGame.GetExtreme | src/Galaga/GalagaGame.java:468-492 | the loop returns the extreme that `ExtremeIsExtreme` characterises |
| GalagaGame.ExtremeIsExtreme | src/Galaga/GalagaGame.java:468-492 | NORTH/WEST give the smallest row/column index with a live enemy. SOUTH/EAST give the largest such index plus one. Any direction gives -1 exactly when no enemy is alive |
| GalagaGame.GetLeftClusterSpace | src/Galaga/GalagaGame.java:401-403 | the pixel width of the empty columns on the left: 36 times the western extreme |
| GalagaGame.GetRightClusterSpace | src/Galaga/GalagaGame.java:409-411 | the pixel width of the empty columns on the right: 36 times the columns past the eastern extreme |
| GalagaGame.GetClusterSize | src/Galaga/GalagaGame.java:498-505 | the live cluster's extent in pixels, less one spacing, from the four extremes |
| GalagaGame.GridPathsCounts | src/Galaga/GalagaGame.java:440-450 | the moving-enemy count is at most the grid size, and is zero exactly when no enemy has a path |
| GalagaGame.GetEnemyPathCount | src/Galaga/GalagaGame.java:440-450 | the loop counts the enemies that have a path |
| GalagaGame.SingleClusterOffset | src/Galaga/GalagaGame.java:458-461 | a cell's slot lies on the formation's 36-pixel grid measured from the corner, and the slot gives back its cell: column x, row y. So two cells never share a slot |
| GalagaGame.IsRunning | src/Galaga/GalagaGame.java:539-541 | the game runs while the fighter is alive or a life remains. `TimerTick` states how the timer phase changes this; the earlier phases of a tick can only kill the fighter |
| GalagaGame.LowestAlive | src/Galaga/GalagaGame.java:287-289 | the lowest live enemy of a column, or -1 exactly when the column is dead |
| GalagaGame.PlaceInFormation | src/Galaga/GalagaGame.java:424-426 | an enemy without a path is moved to its slot; no other enemy moves |
| GalagaGame.FollowPath | src/Galaga/GalagaGame.java:430-431 | a live enemy on a path advances its path by the shared distance; no other enemy moves |
| GalagaGame.DropPath | src/Galaga/GalagaGame.java:432-434 | a dead enemy's path is cleared without moving it or changing any alive flag |
| GalagaGame.PlaceCell | src/Galaga/GalagaGame.java:424-435 | the three cases of `setClusterPos` for one cell, and no other cell moves |
| GalagaGame.PlaceColumn | src/Galaga/GalagaGame.java:421-436 | every cell of the column is handled, and other columns do not move |
| GalagaGame.SetClusterPos | src/Galaga/GalagaGame.java:417-438 | the corner becomes the argument. Every enemy that had no path sits at corner + 36·(col, row). Every dead enemy that had a path has it cleared. Score never drops |
| GalagaGame.NudgeEast | src/Galaga/GalagaGame.java:374-376 | the corner moves 1 to the east; the overflow test against the right margin is reported |
| GalagaGame.NudgeWest | src/Galaga/GalagaGame.java:381-382 | the corner moves 1 to the west; the overflow test against the left margin is reported |
| GalagaGame.Turn | src/Galaga/GalagaGame.java:377-378 | the direction flips and the corner steps back 1 horizontally and 2 down |
| GalagaGame.MoveCluster | src/Galaga/GalagaGame.java:371-387 | without overflow the corner moves exactly ±1 in x along the direction. On overflow the direction flips and the corner ends at the same x, 2 lower. The flip happens exactly when the source's bounds test fails |
| GalagaGame.ConsumeLife | src/Galaga/GalagaGame.java:264-276 | with lives left: one life fewer, the fighter alive again, and only the highest-index live marker hidden (none if all are hidden). With none left nothing changes |
| GalagaGame.MoveFighter | src/Galaga/GalagaGame.java:354-366 | a live fighter moves 4 east or west only while inside the margins (`Stepped`). A dead one stays put. A fighter that does not move fires no collisions |
| GalagaGame.StepFighter | src/Galaga/GalagaGame.java:360-364 | the fighter moves horizontally by the given step |
| GalagaGame.FireFighterWeapon | src/Galaga/GalagaGame.java:308-329 | a dead fighter fires nothing. A live one appends one fresh player shot to the shots and the registry. The shot starts on the fighter's centre line, 12 px above it, and moves 8 up per tick |
| GalagaGame.AddShot | src/Galaga/GalagaGame.java:296-298 | one fresh shot of the given kind, position and momentum is appended to both the shots and the registry |
| GalagaGame.FireEnemyWeapon | src/Galaga/GalagaGame.java:281-303 | with no live enemy, nothing happens and nothing is drawn. Otherwise one draw picks a column: if it is alive, that column fires from its lowest live enemy; if not, some live column does. The shot is appended and moves 8 down per tick |
| GalagaGame.FireFromLiveColumn | src/Galaga/GalagaGame.java:285-300 | the shooter is the drawn column's lowest live enemy when that column is alive |
| GalagaGame.FireFrom | src/Galaga/GalagaGame.java:291-299 | the shot starts on the firing enemy's centre line, 4 px below it |
| GalagaGame.AnyEnemyAlive | src/Galaga/GalagaGame.java:285 | true exactly when some enemy is alive |
| GalagaGame.PickShooter | src/Galaga/GalagaGame.java:286-289 | the shooter is the lowest live enemy of the drawn column, or of another live column when that one is dead |
| GalagaGame.DiscardShot | src/Galaga/GalagaGame.java:344-347 | the shot leaves both the shots and the registry, and every other entry stays |
| GalagaGame.MoveShot | src/Galaga/GalagaGame.java:338-342 | one shot moves by its momentum, no other shot moves, and the result says whether it left the field |
| GalagaGame.MoveAllShots | src/Galaga/GalagaGame.java:337-343 | every shot moves by its momentum; the removal list holds, in order, exactly the shots that left the field |
| GalagaGame.DiscardAll | src/Galaga/GalagaGame.java:344-347 | every listed shot leaves the shots and the registry |
| GalagaGame.MoveShots | src/Galaga/GalagaGame.java:334-348 | every shot moves by its momentum. Exactly the shots still inside [0, width] by [0, height] stay, in order, so every remaining shot is inside the field. Each removed shot also leaves the registry |
| GalagaGame.DisposeGrid | src/Galaga/GalagaGame.java:221-227 | every grid enemy is unregistered |
| GalagaGame.DisposeColumn | src/Galaga/GalagaGame.java:222-226 | every enemy of one column is unregistered |
| GalagaGame.DisposeMarkers | src/Galaga/GalagaGame.java:230-234 | every life marker is unregistered |
| GalagaGame.DisposeFormation | src/Galaga/GalagaGame.java:220-234 | the registry keeps exactly its entries that are neither grid enemies nor life markers |
| GalagaGame.DisposeCells | src/Galaga/GalagaGame.java:221-227 | the registry keeps exactly its entries that are not grid enemies |
| GalagaGame.DisposeLifeMarkers | src/Galaga/GalagaGame.java:230-234 | the registry keeps exactly its entries that are not life markers |
| GalagaGame.FillColumn | src/Galaga/GalagaGame.java:241-243 | one column of fresh enemies is created and registered in order |
| GalagaGame.FillGrid | src/Galaga/GalagaGame.java:237-244 | the column count is the usable width divided by 36, and every cell holds a fresh registered enemy |
| GalagaGame.PlaceMarkers | src/Galaga/GalagaGame.java:252-258 | one fresh, non-colliding marker per life, marker i at (18·i, height - 18) |
| GalagaGame.PlaceMarker | src/Galaga/GalagaGame.java:254-257 | marker i is created at (18·i, height - 18), cannot collide, and no other marker changes |
| GalagaGame.Teardown | src/Galaga/GalagaGame.java:208-234 | the level's tunables are set, 30·(L-1) is scored, a life is added exactly when L is a multiple of 4, and the old enemies and markers are unregistered |
| GalagaGame.ClearShots | src/Galaga/GalagaGame.java:203-206 | every shot is disposed and the list emptied |
| GalagaGame.BuildFormation | src/Galaga/GalagaGame.java:236-249 | the new grid is centred at the top margin and every enemy sits at its slot without a path; every actor registered before that is not an enemy keeps its position and size |
| GalagaGame.NewGrid | src/Galaga/GalagaGame.java:237-244 | a fresh grid of fresh path-less enemies is registered |
| GalagaGame.Rebuild | src/Galaga/GalagaGame.java:236-258 | a fresh formation at rest and a fresh life counter with one marker per life; the fighter keeps its position and size |
| GalagaGame.SetLevelParams | src/Galaga/GalagaGame.java:200-259 | after `setLevelParams(L)`: the travel distance is 1.2 + 0.3·L; rows 6 + (L-1)/2; at most 2 + 2(L-1) moving enemies; both delays 40 - 5(L-1); no shots; a fresh formation at rest. The score rises by at least 30(L-1), a life is added exactly when L % 4 == 0, the registry loses exactly the old shots, enemies and markers, and the fighter keeps its position and size |
| GalagaGame.ClearLevel | src/Galaga/GalagaGame.java:202-234 | the tunables are set, the shots are cleared, 30(L-1) is scored and the old formation is unregistered |
| GalagaGame.SendOut | src/Galaga/GalagaGame.java:161-164 | the chosen enemy gets a fresh swoop out from its position to 100 px below the fighter; no other enemy's path changes |
| GalagaGame.PickCell | src/Galaga/GalagaGame.java:143-155 | a cell is found exactly when some enemy is alive. A live first pick is the one chosen; otherwise the chosen cell is some live cell |
| GalagaGame.DispatchEnemy | src/Galaga/GalagaGame.java:139-197 | a new level starts exactly when no enemy was alive: the level rises by one and the formation is rebuilt at rest. Otherwise a live enemy, the first pick if it was alive, is sent on a fresh swoop toward the fighter |
| GalagaGame.NextLevel | src/Galaga/GalagaGame.java:149-150 | the level rises by one and its parameters are applied; the fighter stays where it is |
| GalagaGame.Dispatch | src/Galaga/GalagaGame.java:158-164 | the picked enemy dives toward 100 px below the fighter |
| GalagaGame.FormationStep | src/Galaga/GalagaGame.java:105-108 | on even ticks the formation makes one `moveCluster` step (nudge, or turn exactly when the margin is crossed); on odd ticks nothing moves and nothing is drawn. The fighter and every shot stay where they are, and no dead actor of the registry comes back to life |
| GalagaGame.ShotsStep | src/Galaga/GalagaGame.java:109 | every shot moves by its momentum; exactly those still in the field stay, in order, so every remaining shot is in the field. The registry loses exactly the shots that left, the fighter stays where it is, and every dead actor of the registry stays dead |
| GalagaGame.FighterFires | src/Galaga/GalagaGame.java:112-115 | `lastFighterShot` becomes the tick exactly when space is pressed and more than 16 ticks have passed. A shot is appended exactly when that holds and the fighter is alive, centred on the fighter's top edge and moving up; otherwise the shots do not change |
| GalagaGame.FighterSteers | src/Galaga/GalagaGame.java:118-123 | a live fighter takes one step west for left alone, one step east for right alone, and stays for both or neither (`Steered`); a dead one stays |
| GalagaGame.FighterActs | src/Galaga/GalagaGame.java:111-123 | the fire rule, then the steering: a shot is appended to the shots and the registry exactly when the rule holds and the fighter was alive before it fired, and a fighter alive at the end stands where the arrows take it. No dead actor comes back to life |
| GalagaGame.EnemyFires | src/Galaga/GalagaGame.java:126-128 | an enemy shot appears exactly on multiples of the fire delay, while the fighter is alive and some enemy is alive, and is appended to both the shots and the registry. It comes from the lowest live enemy of the drawn column, or of some live column when that one is dead, and starts below that enemy moving down. No dead actor comes back to life |
| GalagaGame.Advance | src/Galaga/GalagaGame.java:105-109 | the formation step on even ticks, then every shot moves and exactly those leaving the field are dropped from the shots and the registry, in order; the fighter stays where it is and every dead actor of the registry stays dead |
| GalagaGame.Volley | src/Galaga/GalagaGame.java:111-128 | the fighter's fire rule and steering, then the enemy fire rule: the shots and the registry gain exactly the fighter's shot, then the enemy's. The fighter's shot appears exactly when its rule holds for the fighter alive at the start; the enemy's exactly when its rule holds for the flags tested between the two (`armed`, `anyLeft`), which lie between the start and the end values. No dead actor comes back to life |
| GalagaGame.Motion | src/Galaga/GalagaGame.java:105-128 | the part of the tick before the death timer, `Advance` then `Volley`: the game stays consistent, the shot clock follows the fire rule and the score never drops |
| GalagaGame.MaybeDispatch | src/Galaga/GalagaGame.java:139-197 | a dispatch happens exactly on multiples of the dispatch delay while at most the allowed number of enemies are moving. The level rises exactly when a dispatch finds no live enemy |
| GalagaGame.TimerTick | src/Galaga/GalagaGame.java:132-197 | a positive death timeout counts down by 1. A zero timeout becomes -1 and consumes a life if one remains, reviving the fighter. Dispatch is attempted only when the timeout is negative. The level rises only when no enemy is alive, adding a life on multiples of 4; otherwise whether the game runs does not change |
| GalagaGame.HandleTick | src/Galaga/GalagaGame.java:103-198 | one tick keeps the game consistent and follows the fire rule for `lastFighterShot`. The level either stays or rises by one into a fresh formation at rest with its tunables. The score never drops |
| GalagaGame.AddScoreDisplay | src/Galaga/GalagaGame.java:71-93 | the corrected score display is registered once, at (5, 16), and cannot collide |
| GalagaGame.NewScoreDisplay | src/Galaga/GalagaGame.java:71-90 | a fresh score display is registered |
| GalagaGame.AddScoreDisplayAsWritten | src/Galaga/GalagaGame.java:91-93 | as written, the score display ends up in the registry twice |
| GalagaGame.constructor | src/Galaga/GalagaGame.java:53-94 | a new game is consistent, at level 1, moving east, with no shots, 3 lives with 3 markers, level 1's tunables, a formation at rest, the fighter at (w/2 - 12, h - 44), and the score display registered last |
| GalagaGame.Start | src/Galaga/GalagaGame.java:57-93 | the fighter at (w/2 - 12, h - 44), level 1 and the score display, in the source's order |
| GalagaGame.FirstLevel | src/Galaga/GalagaGame.java:65-69 | the fighter at (w/2 - 12, h - 44), which the first level does not move, and level 1's parameters |
| GalagaGame.PlaceFighter | src/Galaga/GalagaGame.java:57-67 | the fighter is created and centred horizontally, 44 px above the bottom |
| GalagaGame.NewFighter | src/Galaga/GalagaGame.java:57-63 | a fresh 24 by 24 controlled fighter is registered |
| HighScores.CharOf | src/Galaga/HighScore.java:103 | the `(char)` cast keeps any value that already fits in 16 bits |
| HighScores.InsertionPoint | src/Galaga/HighScore.java:125-130 | the first index whose entry the score beats, or -1 when it beats none |
| HighScores.PostableIffBeatsSome | src/Galaga/HighScore.java:110-130 | on a descending table of five, `canPostScore` holds exactly when the search finds an index |
| HighScores.Inserted | src/Galaga/HighScore.java:132-137 | the intended shift-down: entries before k stay, the new entry is at k, later entries move down one, and the last drops out |
| HighScores.InsertedDescending | src/Galaga/HighScore.java:132-137 | inserting at the insertion point keeps a descending table descending |
| HighScores.InsertedKeepsAllButLast | src/Galaga/HighScore.java:132-137 | the intended insertion loses exactly the last entry and gains the new one |
| HighScores.OverwriteLosesBeatenEntry | src/Galaga/HighScore.java:133-137 | on 50, 40, 30, 20, 10 a score of 45 overwrites 40 as written, where inserting would give 50, 45, 40, 30, 20 |
| HighScores.ShiftedAsWritten | src/Galaga/HighScore.java:93-104 | as written, a letter shifted by ±1 stays a letter |
| HighScores.ShiftedAsWrittenSkipsLetters | src/Galaga/HighScore.java:98-102 | as written, 'A' - 1 gives 'Y' and 'Z' + 1 gives 'B', so 'Z' and 'A' are skipped; the corrected wrap gives 'Z' and 'A' |
| HighScores.Shifted | src/Galaga/HighScore.java:93-104 | the corrected shift keeps letters letters and moves them cyclically over the 26 letters |
| HighScores.ShiftedRoundTrip | src/Galaga/HighScore.java:93-104 | with the corrected shift, one step down undoes one step up and vice versa |
| HighScores.ClampCursor | src/Galaga/HighScore.java:197-201 | the cursor ends in [0, 2], is kept when already there, and is pulled to the nearer end otherwise |
| HighScores.ScoreTable.constructor | src/Galaga/HighScore.java:31-61 | slot i holds the i-th stored entry while there is one, and AAA with 0 after that |
| HighScores.ScoreTable.CanPostScore | src/Galaga/HighScore.java:110-115 | a postable score has an insertion point in 0..4, so the write at line 137 is in bounds |
| HighScores.HighScore.constructor | src/Galaga/HighScore.java:23-29 | a postable score is inserted at its insertion point under the name YOU. Otherwise the insertion point is -1 and the table is unchanged |
| HighScores.HighScore.FindInsertionPoint | src/Galaga/HighScore.java:125-130 | the search loop leaves the first beaten index, or the old value when none is beaten |
| HighScores.HighScore.MakeScoreInsertion | src/Galaga/HighScore.java:121-138 | the corrected insertion shifts the later entries and their names down one and writes the score at the insertion point |
| HighScores.HighScore.ShiftDown | src/Galaga/HighScore.java:133-136 | the corrected loop moves entries p..3 to p+1..4, for values and names alike |
| HighScores.HighScore.ShiftDownAsWritten | src/Galaga/HighScore.java:133-136 | the loop as written runs only when 5 < p, where its first step writes index 5, past the array; for any index in the table it never runs and changes nothing |
| HighScores.HighScore.MakeScoreInsertionAsWritten | src/Galaga/HighScore.java:121-138 | as written, only the slot at the insertion point changes, and no name moves |
| HighScores.HighScore.ShiftChar | src/Galaga/HighScore.java:93-104 | only the selected letter of the edited name changes, by the corrected cyclic shift |
| HighScores.HighScore.ShiftCharAsWritten | src/Galaga/HighScore.java:93-104 | as written, only the selected letter changes, by the source's wrap |
| HighScores.HighScore.ReceiveKeyPress | src/Galaga/HighScore.java:171-202 | with no posted score nothing happens and nothing is saved. Otherwise the arrows and WASD shift the letter or move the cursor, Enter asks to save, and the cursor ends clamped to [0, 2] |

## Left out

- The Swing window, the timer loop, the key listeners and every `drawActor`/`draw` method are not part of this model. They only paint; keys arrive as the parameters of `HandleTick` and `ReceiveKeyPress`.
- TractorBeam.java is not part of this model: it calls methods that do not exist in the other classes.
- The separating-axis test in `Actor` (its projections and the `isBetween` helper at Actor.java:178-180) is double arithmetic with infinity sentinels. It is the input `overlapTest`; only its null-array guard is modelled.
- The enemy outline uses `Math.sin`/`Math.cos`. Its vertices are the input `enemyVertex`; the model keeps their count and position offset.
- `loadScores` and `saveScores` are file I/O. The stored entries are the table's constructor argument, and Enter returns `save` instead of writing the file.
- Doubles (`position`, `travelDistance`, the Bézier parameter) are `real`. Floating-point rounding is not modelled.
- Every `new Random()` is one shared input stream of draws. Seeding and independence between the source's generators are not modelled.
- GalagaGame.PickCell: the source re-draws until it hits a live cell. The model takes the first pick and, when it is dead, some live cell. It charges only the first pick's two draws, not the draws of the re-tries.
- GalagaGame.FireEnemyWeapon: the source re-draws the column until it is alive. The model takes the first draw and, when that column is dead, some live column. The count of draws is not modelled beyond the first.
- GalagaGame.constructor: requires width ≥ 76 and height > 100. With a narrower window the grid has no column and `getClusterSize` reads `enemies[0][0]` out of bounds; with a lower one `nextInt(height - 100)` throws.
- GalagaGame.SetLevelParams, GalagaGame.constructor: state the score as at least `old + 30(L-1)`, and a new game's as at least 0. The placement moves run collision scans, whose scoring the model bounds only from below.
- GalagaGame.DispatchEnemy: states a lower bound on the score for the same reason.
- GalagaGame.HandleTick, GalagaGame.Motion: state only what holds over the whole tick. `HandleTick` runs `Motion` (that is, `Advance` then `Volley`) and then `TimerTick`, in the source's order, and the per-phase facts are in their contracts, whose ghost results name what each phase did.
- Actor.Overlaps: also answers "no overlap" when only the y arrays are missing, where the source would throw. Every actor's x and y arrays are created together, so this case does not arise in the model.
- HighScores.HighScore.ReceiveKeyPress: shifts letters with the corrected wrap `Shifted`. The wrap as written, which skips 'Z' and 'A', is `ShiftCharAsWritten` and `ShiftedAsWritten`.
- GalagaGame.constructor, GalagaGame.Start: register the score display once (`AddScoreDisplay`). The source registers it twice, which is `AddScoreDisplayAsWritten`. The second entry is never disposed, and the display cannot collide, so nothing else observes it.
- GalagaGame.Teardown: the order of the registry after disposal is stated as membership, not as a sequence.
- HighScores.HighScore.MakeScoreInsertion: requires `canPostScore`. The source only calls it then; otherwise the write at line 137 would index -1 and throw.
- HighScores.HighScore.constructor: uses the corrected insertion; the as-written one is `MakeScoreInsertionAsWritten`.
- The name rows of the score table are `seq` values in an array, not shared `char[]` objects. Aliasing between rows is not modelled; the source creates a fresh array for each name.

## Findings

| source | as written | input that shows it | evidently intended | confidence | as-written member | corrected member |
|---|---|---|---|---|---|---|
| src/Galaga/HighScore.java:98-102 | the wrap subtracts from 90 / adds to 65 the distance past the bound, off by one | 'A' shifted by -1 gives 'Y'; 'Z' shifted by +1 gives 'B' (lemma `ShiftedAsWrittenSkipsLetters`) | a cyclic shift over A..Z: 'A' - 1 = 'Z', 'Z' + 1 = 'A' (lemma `ShiftedRoundTrip`) | not executed | HighScores.ShiftedAsWritten | HighScores.Shifted |
| src/Galaga/HighScore.java:133-136 | the shift-down loop starts at 5 and runs while 5 < p, so it never runs, and the write at line 137 overwrites the beaten entry | table 50, 40, 30, 20, 10 and score 45 gives 50, 45, 30, 20, 10 (lemma `OverwriteLosesBeatenEntry`) | entries from the insertion point move down one: 50, 45, 40, 30, 20, and the table stays descending (lemmas `InsertedDescending`, `InsertedKeepsAllButLast`) | not executed | HighScores.HighScore.MakeScoreInsertionAsWritten | HighScores.HighScore.MakeScoreInsertion |
| src/Galaga/Actor.java:232-237 | `shift` calls `setLocation`, which regenerates the outline at the new position, then adds the offset to every vertex again | a shot at (0, 0) shifted by (1, 0) has x vertices 2, 4, 4, 2 instead of 1, 3, 3, 1 (lemma `ShiftAsWrittenCounterexample`; `ShiftAsWritten` states the outline at twice the move) | the outline follows the position | not executed | Actor.ShiftAsWritten | Actor.Shift |
| src/Galaga/GalagaGame.java:93 | the score display registers itself in its constructor and is then added to `collLibrary` a second time | any new game: the display appears twice in the registry | one registry entry per actor | not executed | GalagaGame.AddScoreDisplayAsWritten | GalagaGame.AddScoreDisplay |
