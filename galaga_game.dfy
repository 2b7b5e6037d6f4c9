// GalagaGame: the game controller. It owns the enemy formation (a column by
// row grid anchored at `enemyCorner`), the player's fighter and life
// markers, the list of live shots, the shared collision registry
// `collLibrary`, and the counters the per-tick state machine updates.

class GalagaGame {
  /** The static `levelSize`, fixed at construction. */
  const width: int
  const height: int
  /** The separating-axis overlap test on two vertex arrays, an input of the model. */
  const overlapTest: (seq<int>, seq<int>, seq<int>, seq<int>) -> bool
  /** Enemy outline samples: vertex `i` of an enemy with half-size `s`, an input of the model. */
  const enemyVertex: (int, int) -> Point
  /** The static travel distance every path reads. */
  const speed: TravelSpeed

  var enemyRows: int
  var enemyCols: int
  var playerLives: int
  var deadPlayerTimeout: int
  var lastFighterShot: int
  var maximumMovingEnemies: int
  var enemyDispatchDelay: int
  var enemyFireDelay: int
  var clusterDir: Direction
  /** enemies[col, row]. */
  var enemies: array2<Actor?>
  var enemyCorner: Point
  var fighter: Actor?
  var lifeCounter: array<Actor?>
  var collLibrary: seq<Actor>
  var shots: seq<Actor>
  var level: int
  var score: int
  /** Every `handleCollision` call so far, as (responder, other). */
  ghost var responses: seq<(Actor, Actor)>
  ghost var Repr: set<object>

  // ---------------------------------------------------------------------
  // Invariant

  /** The actors currently in the formation grid. */
  ghost function Cells(): set<Actor>
    reads this`enemies, enemies
  {
    set c, r | 0 <= c < enemies.Length0 && 0 <= r < enemies.Length1 && enemies[c, r] != null :: enemies[c, r] as Actor
  }

  /** Every registered actor belongs to this game. */
  ghost predicate Owned()
    reads this`collLibrary
  {
    forall a :: a in collLibrary ==> a.parent == this
  }

  /** Cell (c, r) holds the enemy created for it, registered, with a path (if any) that moves it. */
  ghost predicate CellOk(c: int, r: int)
    requires 0 <= c < enemies.Length0 && 0 <= r < enemies.Length1
    reads this`enemies, enemies, (set c, r | 0 <= c < enemies.Length0 && 0 <= r < enemies.Length1 && enemies[c, r] != null :: enemies[c, r] as Actor)`path, (set c, r | 0 <= c < enemies.Length0 && 0 <= r < enemies.Length1 && enemies[c, r] != null :: enemies[c, r] as Actor)`size
  {
    var a := enemies[c, r];
    a != null && a.parent == this && a.kind == EnemyKind && a.slot == (c, r) &&
    a.size == Dimension(DefaultEnemySize, DefaultEnemySize) &&
    (a.path != null ==> a.path.traveler == a && a.path.maneuver.col == c && a.path.maneuver.row == r)
  }

  /** Life marker i is the plain fighter created for position i, registered once. */
  ghost predicate MarkerOk(i: int)
    requires 0 <= i < lifeCounter.Length
    reads this`lifeCounter, lifeCounter
  {
    var m := lifeCounter[i];
    m != null && m.parent == this && m.kind == FighterKind(false) && m.slot == (i, -1)
  }

  /** The level's size, the game's own objects and the life count. */
  ghost predicate Layout()
    reads this`Repr, this`enemies, this`lifeCounter, this`playerLives
  {
    this in Repr && speed in Repr && enemies in Repr && lifeCounter in Repr &&
    width >= WindowMargin * 2 + SlotPitch && height > 100 && playerLives >= 0
  }

  /** Every cell of the array holds the enemy created for it. */
  ghost predicate CellsOk()
    reads this`enemies, enemies, (set c, r | 0 <= c < enemies.Length0 && 0 <= r < enemies.Length1 && enemies[c, r] != null :: enemies[c, r] as Actor)`path, (set c, r | 0 <= c < enemies.Length0 && 0 <= r < enemies.Length1 && enemies[c, r] != null :: enemies[c, r] as Actor)`size
  {
    forall c, r :: 0 <= c < enemies.Length0 && 0 <= r < enemies.Length1 ==> CellOk(c, r)
  }

  /** The grid has the declared shape and every cell holds the enemy created for it. */
  ghost predicate GridOk()
    reads this`enemies, this`enemyCols, this`enemyRows, enemies, (set c, r | 0 <= c < enemies.Length0 && 0 <= r < enemies.Length1 && enemies[c, r] != null :: enemies[c, r] as Actor)`path, (set c, r | 0 <= c < enemies.Length0 && 0 <= r < enemies.Length1 && enemies[c, r] != null :: enemies[c, r] as Actor)`size
  {
    GridShape() && CellsOk()
  }

  /** Every entry of the life counter holds the marker created for it. */
  ghost predicate MarkersOk()
    reads this`lifeCounter, lifeCounter
  {
    (forall i :: 0 <= i < lifeCounter.Length ==> lifeCounter[i] != null) &&
    (forall i :: 0 <= i < lifeCounter.Length ==> MarkerOk(i))
  }

  /** The player's fighter. */
  ghost predicate FighterOk()
    reads this`fighter
  {
    fighter != null && fighter.parent == this && fighter.kind == FighterKind(true)
  }

  /** Every cell of the array is registered. */
  ghost predicate CellsRegistered()
    reads this`collLibrary, this`enemies, enemies
  {
    forall c, r :: 0 <= c < enemies.Length0 && 0 <= r < enemies.Length1 ==> enemies[c, r] in collLibrary
  }

  /** Every life marker is registered. */
  ghost predicate MarkersRegistered()
    reads this`collLibrary, this`lifeCounter, lifeCounter
  {
    forall i :: 0 <= i < lifeCounter.Length ==> lifeCounter[i] in collLibrary
  }

  /** Every live shot is registered. */
  ghost predicate ShotsRegistered()
    reads this`collLibrary, this`shots
  {
    forall s :: s in shots ==> s in collLibrary
  }

  /**
   * No actor is registered twice, so disposing of one unregisters it
   * completely; the fighter and every cell, marker and shot are registered.
   */
  ghost predicate Registered()
    reads this`collLibrary, this`enemies, enemies, this`lifeCounter, lifeCounter, this`fighter, this`shots
  {
    Owned() && Distinct(collLibrary) && fighter in collLibrary &&
    CellsRegistered() && MarkersRegistered() && ShotsRegistered()
  }

  /** Every registered actor, every enemy and every enemy's path is part of the game's footprint. */
  ghost predicate Contained()
    reads this`Repr, this`collLibrary, this`enemies, enemies, (set c, r | 0 <= c < enemies.Length0 && 0 <= r < enemies.Length1 && enemies[c, r] != null :: enemies[c, r] as Actor)`path
  {
    (forall a :: a in collLibrary ==> a in Repr) &&
    (forall c, r :: (0 <= c < enemies.Length0 && 0 <= r < enemies.Length1 && enemies[c, r] != null) ==>
                    enemies[c, r] in Repr && (enemies[c, r].path != null ==> enemies[c, r].path in Repr))
  }

  /** The part of the invariant that placing the formation changes: the grid and the footprint. */
  ghost predicate FormationOk()
    reads this`Repr, this`collLibrary, this`enemies, this`enemyCols, this`enemyRows, this`lifeCounter,
          this`playerLives, enemies, (set c, r | 0 <= c < enemies.Length0 && 0 <= r < enemies.Length1 && enemies[c, r] != null :: enemies[c, r] as Actor)`path, (set c, r | 0 <= c < enemies.Length0 && 0 <= r < enemies.Length1 && enemies[c, r] != null :: enemies[c, r] as Actor)`size
  {
    Layout() && GridOk() && Contained()
  }

  /** The live shots are distinct projectiles. */
  ghost predicate ShotsOk()
    reads this`shots
  {
    (forall s :: s in shots ==> s.kind.ProjectileKind?) && Distinct(shots)
  }

  /** The object structure every operation relies on (the grid may still be empty). */
  ghost predicate Consistent()
    reads this`Repr, this`collLibrary, this`enemies, this`enemyCols, this`enemyRows, this`fighter,
          this`lifeCounter, this`shots, this`playerLives, enemies, lifeCounter, (set c, r | 0 <= c < enemies.Length0 && 0 <= r < enemies.Length1 && enemies[c, r] != null :: enemies[c, r] as Actor)`path, (set c, r | 0 <= c < enemies.Length0 && 0 <= r < enemies.Length1 && enemies[c, r] != null :: enemies[c, r] as Actor)`size
  {
    Layout() && GridOk() && MarkersOk() && FighterOk() && Registered() && Contained() && ShotsOk()
  }

  /**
   * The invariant survives any step that leaves every location it depends on
   * alone (moving actors, killing them, scoring).
   */
  twostate lemma ConsistentKept()
    requires old(Consistent())
    requires unchanged(this`Repr, this`collLibrary, this`enemies, this`enemyCols, this`enemyRows, this`fighter,
                       this`lifeCounter, this`shots, this`playerLives)
    requires unchanged(enemies, lifeCounter)
    requires unchanged((set c, r | 0 <= c < enemies.Length0 && 0 <= r < enemies.Length1 && enemies[c, r] != null :: enemies[c, r] as Actor)`path,
                       (set c, r | 0 <= c < enemies.Length0 && 0 <= r < enemies.Length1 && enemies[c, r] != null :: enemies[c, r] as Actor)`size)
    ensures Consistent()
  {
    forall c, r | 0 <= c < enemyCols && 0 <= r < enemyRows ensures CellOk(c, r) {
      assert old(CellOk(c, r));
    }
  }

  /**
   * The invariant survives a step that re-establishes the formation's part
   * and leaves the registry, the shots, the fighter and the markers alone.
   */
  twostate lemma RegistryKept()
    requires old(Consistent()) && FormationOk()
    requires unchanged(this`collLibrary, this`enemies, this`fighter, this`lifeCounter, this`shots)
    requires unchanged(enemies, lifeCounter)
    ensures Consistent()
  {
    forall i | 0 <= i < lifeCounter.Length ensures MarkerOk(i) {
      assert old(MarkerOk(i));
    }
  }

  ghost predicate Valid()
    reads this`Repr, this`collLibrary, this`enemies, this`enemyCols, this`enemyRows, this`fighter,
          this`lifeCounter, this`shots, this`playerLives, this`level, this`clusterDir, enemies, lifeCounter,
          (set c, r | 0 <= c < enemies.Length0 && 0 <= r < enemies.Length1 && enemies[c, r] != null :: enemies[c, r] as Actor)`path, (set c, r | 0 <= c < enemies.Length0 && 0 <= r < enemies.Length1 && enemies[c, r] != null :: enemies[c, r] as Actor)`size
  {
    Consistent() && enemyCols >= 1 && enemyRows >= 1 && level >= 1 && (clusterDir == East || clusterDir == West)
  }

  /** The objects the game's operations update: the footprint but the game, its two arrays and the shared speed. */
  ghost function Actors(): set<object>
    reads this`Repr, this`enemies, this`lifeCounter
  {
    Repr - {this, enemies, lifeCounter, speed}
  }

  // ---------------------------------------------------------------------
  // Read-only grid queries

  /** The grid has its declared shape and every cell is filled. */
  ghost predicate GridShape()
    reads this`enemies, this`enemyCols, this`enemyRows, enemies
  {
    enemies.Length0 == enemyCols && enemies.Length1 == enemyRows &&
    forall c, r :: 0 <= c < enemyCols && 0 <= r < enemyRows ==> enemies[c, r] != null
  }

  ghost predicate RowAlive(row: int)
    requires GridShape() && 0 <= row < enemyRows
    reads this`enemies, this`enemyCols, this`enemyRows, enemies, (set c, r | 0 <= c < enemies.Length0 && 0 <= r < enemies.Length1 && enemies[c, r] != null :: enemies[c, r] as Actor)`alive
  {
    exists c :: 0 <= c < enemyCols && enemies[c, row].alive
  }

  ghost predicate ColAlive(col: int)
    requires GridShape() && 0 <= col < enemyCols
    reads this`enemies, this`enemyCols, this`enemyRows, enemies, (set c, r | 0 <= c < enemies.Length0 && 0 <= r < enemies.Length1 && enemies[c, r] != null :: enemies[c, r] as Actor)`alive
  {
    exists r :: 0 <= r < enemyRows && enemies[col, r].alive
  }

  ghost predicate AnyAlive()
    requires GridShape()
    reads this`enemies, this`enemyCols, this`enemyRows, enemies, (set c, r | 0 <= c < enemies.Length0 && 0 <= r < enemies.Length1 && enemies[c, r] != null :: enemies[c, r] as Actor)`alive
  {
    exists c, r :: 0 <= c < enemyCols && 0 <= r < enemyRows && enemies[c, r].alive
  }

  /** `anyAliveInRow`. */
  method AnyAliveInRow(row: int) returns (b: bool)
    requires GridShape() && 0 <= row < enemyRows
    ensures b == RowAlive(row)
  {
    for x := 0 to enemyCols
      invariant forall c :: 0 <= c < x ==> !enemies[c, row].alive
    {
      if enemies[x, row].alive {
        return true;
      }
    }
    return false;
  }

  /** `anyAliveInCol`. */
  method AnyAliveInCol(col: int) returns (b: bool)
    requires GridShape() && 0 <= col < enemyCols
    ensures b == ColAlive(col)
  {
    for y := 0 to enemyRows
      invariant forall r :: 0 <= r < y ==> !enemies[col, r].alive
    {
      if enemies[col, y].alive {
        return true;
      }
    }
    return false;
  }

  /**
   * What `getExtreme(dir)` answers: NORTH/WEST the first row/column holding
   * a live enemy, SOUTH/EAST one past the last such row/column, and -1 when
   * no enemy is alive.
   */
  ghost predicate IsExtreme(dir: Direction, e: int)
    requires GridShape()
    reads this`enemies, this`enemyCols, this`enemyRows, enemies, (set c, r | 0 <= c < enemies.Length0 && 0 <= r < enemies.Length1 && enemies[c, r] != null :: enemies[c, r] as Actor)`alive
  {
    if e == -1 then !AnyAlive()
    else match dir
      case North => 0 <= e < enemyRows && RowAlive(e) && forall r :: 0 <= r < e ==> !RowAlive(r)
      case South => 1 <= e <= enemyRows && RowAlive(e - 1) && forall r :: e <= r < enemyRows ==> !RowAlive(r)
      case West => 0 <= e < enemyCols && ColAlive(e) && forall c :: 0 <= c < e ==> !ColAlive(c)
      case East => 1 <= e <= enemyCols && ColAlive(e - 1) && forall c :: e <= c < enemyCols ==> !ColAlive(c)
  }

  /** `getExtreme(dir)`. */
  method GetExtreme(dir: Direction) returns (e: int)
    requires GridShape()
    ensures e == Extreme(dir)
  {
    if dir == North || dir == South {
      for y := 0 to enemyRows
        invariant dir == North ==> FirstLiveRow(y) == FirstLiveRow(0)
        invariant dir == South ==> LiveRowsEnd(enemyRows - y) == LiveRowsEnd(enemyRows)
      {
        if dir == South {
          var b := AnyAliveInRow(enemyRows - y - 1);
          if b {
            return enemyRows - y;
          }
        } else {
          var b := AnyAliveInRow(y);
          if b {
            return y;
          }
        }
      }
    } else {
      for x := 0 to enemyCols
        invariant dir == West ==> FirstLiveCol(x) == FirstLiveCol(0)
        invariant dir == East ==> LiveColsEnd(enemyCols - x) == LiveColsEnd(enemyCols)
      {
        if dir == East {
          var b := AnyAliveInCol(enemyCols - x - 1);
          if b {
            return enemyCols - x;
          }
        } else {
          var b := AnyAliveInCol(x);
          if b {
            return x;
          }
        }
      }
    }
    return -1;
  }

  /** The first live row at or below index `y`, or -1. */
  ghost function FirstLiveRow(y: int): int
    requires GridShape() && 0 <= y <= enemyRows
    reads this`enemies, this`enemyCols, this`enemyRows, enemies,
          (set c, r | 0 <= c < enemies.Length0 && 0 <= r < enemies.Length1 && enemies[c, r] != null :: enemies[c, r] as Actor)`alive
    decreases enemyRows - y
  {
    if y == enemyRows then -1 else if RowAlive(y) then y else FirstLiveRow(y + 1)
  }

  /** One past the last live row among the first `n`, or -1. */
  ghost function LiveRowsEnd(n: int): int
    requires GridShape() && 0 <= n <= enemyRows
    reads this`enemies, this`enemyCols, this`enemyRows, enemies,
          (set c, r | 0 <= c < enemies.Length0 && 0 <= r < enemies.Length1 && enemies[c, r] != null :: enemies[c, r] as Actor)`alive
  {
    if n == 0 then -1 else if RowAlive(n - 1) then n else LiveRowsEnd(n - 1)
  }

  /** The first live column at or right of index `x`, or -1. */
  ghost function FirstLiveCol(x: int): int
    requires GridShape() && 0 <= x <= enemyCols
    reads this`enemies, this`enemyCols, this`enemyRows, enemies,
          (set c, r | 0 <= c < enemies.Length0 && 0 <= r < enemies.Length1 && enemies[c, r] != null :: enemies[c, r] as Actor)`alive
    decreases enemyCols - x
  {
    if x == enemyCols then -1 else if ColAlive(x) then x else FirstLiveCol(x + 1)
  }

  /** One past the last live column among the first `n`, or -1. */
  ghost function LiveColsEnd(n: int): int
    requires GridShape() && 0 <= n <= enemyCols
    reads this`enemies, this`enemyCols, this`enemyRows, enemies,
          (set c, r | 0 <= c < enemies.Length0 && 0 <= r < enemies.Length1 && enemies[c, r] != null :: enemies[c, r] as Actor)`alive
  {
    if n == 0 then -1 else if ColAlive(n - 1) then n else LiveColsEnd(n - 1)
  }

  /** The extreme of the live part of the formation on side `dir`. */
  ghost function Extreme(dir: Direction): int
    requires GridShape()
    reads this`enemies, this`enemyCols, this`enemyRows, enemies,
          (set c, r | 0 <= c < enemies.Length0 && 0 <= r < enemies.Length1 && enemies[c, r] != null :: enemies[c, r] as Actor)`alive
  {
    match dir
    case North => FirstLiveRow(0)
    case South => LiveRowsEnd(enemyRows)
    case West => FirstLiveCol(0)
    case East => LiveColsEnd(enemyCols)
  }

  lemma {:induction false} FirstLiveRowIsFirst(y: int)
    requires GridShape() && 0 <= y <= enemyRows
    ensures var f := FirstLiveRow(y);
            (f == -1 && forall r :: y <= r < enemyRows ==> !RowAlive(r)) ||
            (y <= f < enemyRows && RowAlive(f) && forall r :: y <= r < f ==> !RowAlive(r))
    decreases enemyRows - y
  {
    if y < enemyRows && !RowAlive(y) {
      FirstLiveRowIsFirst(y + 1);
    }
  }

  lemma {:induction false} LiveRowsEndIsLast(n: int)
    requires GridShape() && 0 <= n <= enemyRows
    ensures var f := LiveRowsEnd(n);
            (f == -1 && forall r :: 0 <= r < n ==> !RowAlive(r)) ||
            (1 <= f <= n && RowAlive(f - 1) && forall r :: f <= r < n ==> !RowAlive(r))
  {
    if n > 0 && !RowAlive(n - 1) {
      LiveRowsEndIsLast(n - 1);
    }
  }

  lemma {:induction false} FirstLiveColIsFirst(x: int)
    requires GridShape() && 0 <= x <= enemyCols
    ensures var f := FirstLiveCol(x);
            (f == -1 && forall c :: x <= c < enemyCols ==> !ColAlive(c)) ||
            (x <= f < enemyCols && ColAlive(f) && forall c :: x <= c < f ==> !ColAlive(c))
    decreases enemyCols - x
  {
    if x < enemyCols && !ColAlive(x) {
      FirstLiveColIsFirst(x + 1);
    }
  }

  lemma {:induction false} LiveColsEndIsLast(n: int)
    requires GridShape() && 0 <= n <= enemyCols
    ensures var f := LiveColsEnd(n);
            (f == -1 && forall c :: 0 <= c < n ==> !ColAlive(c)) ||
            (1 <= f <= n && ColAlive(f - 1) && forall c :: f <= c < n ==> !ColAlive(c))
  {
    if n > 0 && !ColAlive(n - 1) {
      LiveColsEndIsLast(n - 1);
    }
  }

  /**
   * `getExtreme` finds the first (NORTH, WEST) or one past the last (SOUTH,
   * EAST) live row or column, and answers -1 exactly when no enemy is alive.
   */
  lemma ExtremeIsExtreme(dir: Direction)
    requires GridShape()
    ensures IsExtreme(dir, Extreme(dir))
    ensures Extreme(dir) == -1 <==> !AnyAlive()
  {
    match dir {
      case North => FirstLiveRowIsFirst(0);
      case South => LiveRowsEndIsLast(enemyRows);
      case West => FirstLiveColIsFirst(0);
      case East => LiveColsEndIsLast(enemyCols);
    }
    if Extreme(dir) == -1 && AnyAlive() {
      var c, r :| 0 <= c < enemyCols && 0 <= r < enemyRows && enemies[c, r].alive;
      assert RowAlive(r) && ColAlive(c);
    }
  }

  /** `getLeftClusterSpace`: the width of the dead columns on the left. */
  method GetLeftClusterSpace() returns (space: int)
    requires GridShape()
    ensures space == SlotPitch * Extreme(West)
  {
    var w := GetExtreme(West);
    space := SlotPitch * w;
  }

  /** `getRightClusterSpace`: the width of the dead columns on the right. */
  method GetRightClusterSpace() returns (space: int)
    requires GridShape()
    ensures space == SlotPitch * (enemyCols - Extreme(East))
  {
    var e := GetExtreme(East);
    space := SlotPitch * (enemyCols - e);
  }

  /** `getClusterSize`: the extent of the live part of the formation. */
  method GetClusterSize() returns (d: Dimension)
    requires GridOk() && enemyCols >= 1 && enemyRows >= 1
    ensures d == Dimension(Abs(Extreme(West) - Extreme(East)) * SlotPitch - EnemySpacing,
                           Abs(Extreme(South) - Extreme(North)) * SlotPitch - EnemySpacing)
  {
    assert CellOk(0, 0);
    var enemySize := enemies[0, 0].size;
    var w := GetExtreme(West);
    var e := GetExtreme(East);
    var s := GetExtreme(South);
    var n := GetExtreme(North);
    d := Dimension(Abs(w - e) * (enemySize.width + EnemySpacing) - EnemySpacing,
                   Abs(s - n) * (enemySize.height + EnemySpacing) - EnemySpacing);
  }

  /** How many of the first `n` cells of column `col` have a path. */
  ghost function ColumnPaths(col: int, n: int): nat
    requires GridShape() && 0 <= col < enemyCols && 0 <= n <= enemyRows
    reads this`enemies, this`enemyCols, this`enemyRows, enemies, (set c, r | 0 <= c < enemies.Length0 && 0 <= r < enemies.Length1 && enemies[c, r] != null :: enemies[c, r] as Actor)`path
  {
    if n == 0 then 0 else ColumnPaths(col, n - 1) + (if enemies[col, n - 1].path != null then 1 else 0)
  }

  /** How many cells of the first `m` columns have a path. */
  ghost function GridPaths(m: int): nat
    requires GridShape() && 0 <= m <= enemyCols
    reads this`enemies, this`enemyCols, this`enemyRows, enemies, (set c, r | 0 <= c < enemies.Length0 && 0 <= r < enemies.Length1 && enemies[c, r] != null :: enemies[c, r] as Actor)`path
  {
    if m == 0 then 0 else GridPaths(m - 1) + ColumnPaths(m - 1, enemyRows)
  }

  lemma {:induction false} ColumnPathsCounts(col: int, n: int)
    requires GridShape() && 0 <= col < enemyCols && 0 <= n <= enemyRows
    ensures ColumnPaths(col, n) <= n
    ensures ColumnPaths(col, n) == 0 <==> forall r :: 0 <= r < n ==> enemies[col, r].path == null
  {
    if n > 0 {
      ColumnPathsCounts(col, n - 1);
    }
  }

  /**
   * The count `getEnemyPathCount` returns is at most the number of cells,
   * and it is zero exactly when no enemy is on a path.
   */
  lemma {:induction false} GridPathsCounts(m: int)
    requires GridShape() && 0 <= m <= enemyCols
    ensures GridPaths(m) <= m * enemyRows
    ensures GridPaths(m) == 0 <==> forall c, r :: 0 <= c < m && 0 <= r < enemyRows ==> enemies[c, r].path == null
  {
    if m > 0 {
      GridPathsCounts(m - 1);
      ColumnPathsCounts(m - 1, enemyRows);
      assert (m - 1) * enemyRows + enemyRows == m * enemyRows;
    }
  }

  /** `getEnemyPathCount`: how many enemies are out on a path. */
  method GetEnemyPathCount() returns (count: int)
    requires GridShape()
    ensures count == GridPaths(enemyCols)
  {
    count := 0;
    for x := 0 to enemyCols
      invariant count == GridPaths(x)
    {
      for y := 0 to enemyRows
        invariant count == GridPaths(x) + ColumnPaths(x, y)
      {
        if enemies[x, y].path != null {
          count := count + 1;
        }
      }
    }
  }

  /** The lowest live enemy of column `col`, scanning upward from the bottom row; -1 if none. */
  method LowestAlive(col: int) returns (y: int)
    requires GridShape() && 0 <= col < enemyCols
    ensures -1 <= y < enemyRows
    ensures y == -1 <==> !ColAlive(col)
    ensures y != -1 ==> enemies[col, y].alive && forall r :: y < r < enemyRows ==> !enemies[col, r].alive
  {
    y := enemyRows - 1;
    while y >= 0
      invariant -1 <= y < enemyRows
      invariant forall r :: y < r < enemyRows ==> !enemies[col, r].alive
    {
      if enemies[col, y].alive {
        return;
      }
      y := y - 1;
    }
  }

  /** `isRunning`: the game goes on while the fighter lives or lives remain. */
  predicate IsRunning()
    requires fighter != null
    reads this`fighter, this`playerLives, fighter`alive
  {
    fighter.alive || playerLives > 0
  }

  // ---------------------------------------------------------------------
  // Formation

  /**
   * `getSingleClusterOffset(x, y)`: where cell (x, y) sits in the formation.
   * Slots lie on the formation's grid, and a slot gives back its cell.
   */
  function SingleClusterOffset(x: int, y: int): (p: Point)
    reads this`enemyCorner
    ensures (p.x - enemyCorner.x) % SlotPitch == 0 && (p.x - enemyCorner.x) / SlotPitch == x
    ensures (p.y - enemyCorner.y) % SlotPitch == 0 && (p.y - enemyCorner.y) / SlotPitch == y
  {
    SlotOf(enemyCorner, x, y)
  }

  /** The cells other than (c, r) keep their paths and positions. */
  twostate predicate OthersUnmoved(c: int, r: int)
    requires GridShape() && old(GridShape()) && enemies == old(enemies)
    reads this`enemies, this`enemyCols, this`enemyRows, enemies,
          (set c, r | 0 <= c < enemies.Length0 && 0 <= r < enemies.Length1 && enemies[c, r] != null :: enemies[c, r] as Actor)`path,
          (set c, r | 0 <= c < enemies.Length0 && 0 <= r < enemies.Length1 && enemies[c, r] != null :: enemies[c, r] as Actor)`pos
  {
    forall x, y :: 0 <= x < enemyCols && 0 <= y < enemyRows && (x != c || y != r) ==>
      enemies[x, y].path == old(enemies[x, y].path) && enemies[x, y].pos == old(enemies[x, y].pos)
  }

  /** A cell without a path takes its slot in the formation. */
  method PlaceInFormation(c: int, r: int)
    requires FormationOk() && Owned() && 0 <= c < enemyCols && 0 <= r < enemyRows && enemies[c, r].path == null
    modifies this`score, this`deadPlayerTimeout, this`responses, Actors()
    ensures FormationOk() && Repr == old(Repr)
    ensures enemies[c, r].path == null && enemies[c, r].pos == SlotOf(enemyCorner, c, r)
    ensures OthersUnmoved(c, r)
    ensures score >= old(score)
    ensures forall a :: a in collLibrary && !old(a.alive) ==> !a.alive
    ensures forall a :: a in collLibrary && a.kind != EnemyKind ==> a.pos == old(a.pos) && a.size == old(a.size)
  {
    assert CellOk(c, r);
    var a := enemies[c, r];
    var p := SingleClusterOffset(c, r);
    var hits := a.SetLocation(p.x, p.y);
    forall x, y | 0 <= x < enemyCols && 0 <= y < enemyRows
      ensures CellOk(x, y)
      ensures (x != c || y != r) ==> enemies[x, y].path == old(enemies[x, y].path) && enemies[x, y].pos == old(enemies[x, y].pos)
    {
      assert old(CellOk(x, y));
    }
  }

  /** A live cell with a path takes one step along it. */
  method FollowPath(c: int, r: int, rng: Random)
    requires FormationOk() && Owned() && 0 <= c < enemyCols && 0 <= r < enemyRows
    requires enemies[c, r].path != null && enemies[c, r].alive
    modifies this`score, this`deadPlayerTimeout, this`responses, this`Repr, rng`next, Actors()
    ensures FormationOk() && old(Repr) <= Repr && fresh(Repr - old(Repr))
    ensures old(enemies[c, r].path).position == old(enemies[c, r].path.position) + speed.travelDistance
    ensures OthersUnmoved(c, r)
    ensures score >= old(score)
    ensures forall a :: a in collLibrary && !old(a.alive) ==> !a.alive
    ensures forall a :: a in collLibrary && a.kind != EnemyKind ==> a.pos == old(a.pos) && a.size == old(a.size)
  {
    assert CellOk(c, r);
    var a := enemies[c, r];
    var landed := a.path.Move(rng);
    if a.path != null {
      Repr := Repr + {a.path};
    }
    forall x, y | 0 <= x < enemyCols && 0 <= y < enemyRows
      ensures CellOk(x, y)
      ensures (x != c || y != r) ==> enemies[x, y].path == old(enemies[x, y].path) && enemies[x, y].pos == old(enemies[x, y].pos)
    {
      assert old(CellOk(x, y));
    }
  }

  /** A dead cell with a path loses it. */
  method DropPath(c: int, r: int)
    requires FormationOk() && Owned() && 0 <= c < enemyCols && 0 <= r < enemyRows && enemies[c, r].path != null
    modifies Actors()
    ensures FormationOk() && Repr == old(Repr)
    ensures enemies[c, r].path == null && enemies[c, r].pos == old(enemies[c, r].pos)
    ensures OthersUnmoved(c, r)
    ensures forall a :: a in collLibrary ==> a.alive == old(a.alive)
    ensures forall a :: a in collLibrary && a.kind != EnemyKind ==> a.pos == old(a.pos) && a.size == old(a.size)
  {
    assert CellOk(c, r);
    var a := enemies[c, r];
    a.SetPath(null);
    forall x, y | 0 <= x < enemyCols && 0 <= y < enemyRows
      ensures CellOk(x, y)
      ensures (x != c || y != r) ==> enemies[x, y].path == old(enemies[x, y].path) && enemies[x, y].pos == old(enemies[x, y].pos)
    {
      assert old(CellOk(x, y));
    }
  }

  /**
   * One cell of `setClusterPos`: an enemy without a path takes its slot; an
   * enemy with a path follows it while alive and loses it once dead.
   */
  method PlaceCell(c: int, r: int, rng: Random)
    requires FormationOk() && Owned() && 0 <= c < enemyCols && 0 <= r < enemyRows
    modifies this`score, this`deadPlayerTimeout, this`responses, this`Repr, rng`next, Actors()
    ensures FormationOk() && old(Repr) <= Repr && fresh(Repr - old(Repr))
    ensures old(enemies[c, r].path) == null ==>
              enemies[c, r].path == null && enemies[c, r].pos == SlotOf(enemyCorner, c, r)
    ensures old(enemies[c, r].path) != null && !old(enemies[c, r].alive) ==>
              enemies[c, r].path == null && enemies[c, r].pos == old(enemies[c, r].pos)
    ensures old(enemies[c, r].path) != null && old(enemies[c, r].alive) ==>
              old(enemies[c, r].path).position == old(enemies[c, r].path.position) + speed.travelDistance
    ensures OthersUnmoved(c, r)
    ensures score >= old(score)
    ensures forall a :: a in collLibrary && !old(a.alive) ==> !a.alive
    ensures forall a :: a in collLibrary && a.kind != EnemyKind ==> a.pos == old(a.pos) && a.size == old(a.size)
  {
    if enemies[c, r].path == null {
      PlaceInFormation(c, r);
    } else if enemies[c, r].alive {
      FollowPath(c, r, rng);
    } else {
      DropPath(c, r);
    }
  }

  /** The columns other than `col` keep their paths and positions. */
  twostate predicate OtherColumnsUnmoved(col: int)
    requires GridShape() && old(GridShape()) && enemies == old(enemies)
    reads this`enemies, this`enemyCols, this`enemyRows, enemies,
          (set c, r | 0 <= c < enemies.Length0 && 0 <= r < enemies.Length1 && enemies[c, r] != null :: enemies[c, r] as Actor)`path,
          (set c, r | 0 <= c < enemies.Length0 && 0 <= r < enemies.Length1 && enemies[c, r] != null :: enemies[c, r] as Actor)`pos
  {
    forall x, y :: 0 <= x < enemyCols && 0 <= y < enemyRows && x != col ==>
      enemies[x, y].path == old(enemies[x, y].path) && enemies[x, y].pos == old(enemies[x, y].pos)
  }

  /** The inner loop of `setClusterPos`: every cell of column `col`, top to bottom. */
  method PlaceColumn(col: int, rng: Random)
    requires FormationOk() && Owned() && 0 <= col < enemyCols
    requires forall r :: 0 <= r < enemyRows ==> enemies[col, r] in collLibrary
    modifies this`score, this`deadPlayerTimeout, this`responses, this`Repr, rng`next, Actors()
    ensures FormationOk() && old(Repr) <= Repr && fresh(Repr - old(Repr))
    ensures forall r :: 0 <= r < enemyRows && old(enemies[col, r].path) == null ==>
              enemies[col, r].path == null && enemies[col, r].pos == SlotOf(enemyCorner, col, r)
    ensures forall r :: 0 <= r < enemyRows && old(enemies[col, r].path) != null && !old(enemies[col, r].alive) ==>
              enemies[col, r].path == null
    ensures OtherColumnsUnmoved(col)
    ensures score >= old(score)
    ensures forall a :: a in collLibrary && !old(a.alive) ==> !a.alive
    ensures forall a :: a in collLibrary && a.kind != EnemyKind ==> a.pos == old(a.pos) && a.size == old(a.size)
  {
    for y := 0 to enemyRows
      invariant FormationOk() && old(Repr) <= Repr && fresh(Repr - old(Repr))
      invariant forall r :: 0 <= r < y && old(enemies[col, r].path) == null ==>
                  enemies[col, r].path == null && enemies[col, r].pos == SlotOf(enemyCorner, col, r)
      invariant forall r :: 0 <= r < y && old(enemies[col, r].path) != null && !old(enemies[col, r].alive) ==>
                  enemies[col, r].path == null
      invariant forall r :: y <= r < enemyRows ==> enemies[col, r].path == old(enemies[col, r].path)
      invariant OtherColumnsUnmoved(col)
      invariant score >= old(score)
      invariant forall a :: a in collLibrary && !old(a.alive) ==> !a.alive
      invariant forall a :: a in collLibrary && a.kind != EnemyKind ==> a.pos == old(a.pos) && a.size == old(a.size)
    {
      assert CellOk(col, y);
      assert old(enemies[col, y].path) != null && !old(enemies[col, y].alive) ==> !enemies[col, y].alive;
      label Before:
      PlaceCell(col, y, rng);
      forall x, r | 0 <= x < enemyCols && 0 <= r < enemyRows && (x != col || r != y)
        ensures enemies[x, r].path == old@Before(enemies[x, r].path) && enemies[x, r].pos == old@Before(enemies[x, r].pos)
      {
      }
    }
  }

  /** `setClusterPos(pos)`: move the corner, then place every cell, column by column. */
  method SetClusterPos(corner: Point, rng: Random)
    requires FormationOk() && Owned() && CellsRegistered()
    modifies this`enemyCorner, this`score, this`deadPlayerTimeout, this`responses, this`Repr, rng`next, Actors()
    ensures FormationOk() && old(Repr) <= Repr && fresh(Repr - old(Repr))
    ensures enemyCorner == corner
    ensures forall c, r :: 0 <= c < enemyCols && 0 <= r < enemyRows && old(enemies[c, r].path) == null ==>
              enemies[c, r].path == null && enemies[c, r].pos == SlotOf(corner, c, r)
    ensures forall c, r :: 0 <= c < enemyCols && 0 <= r < enemyRows && old(enemies[c, r].path) != null && !old(enemies[c, r].alive) ==>
              enemies[c, r].path == null
    ensures score >= old(score)
    ensures forall a :: a in collLibrary && !old(a.alive) ==> !a.alive
    ensures forall a :: a in collLibrary && a.kind != EnemyKind ==> a.pos == old(a.pos) && a.size == old(a.size)
  {
    enemyCorner := corner;
    for x := 0 to enemyCols
      invariant FormationOk() && old(Repr) <= Repr && fresh(Repr - old(Repr)) && enemyCorner == corner
      invariant forall c, r :: 0 <= c < x && 0 <= r < enemyRows && old(enemies[c, r].path) == null ==>
                  enemies[c, r].path == null && enemies[c, r].pos == SlotOf(corner, c, r)
      invariant forall c, r :: 0 <= c < x && 0 <= r < enemyRows && old(enemies[c, r].path) != null && !old(enemies[c, r].alive) ==>
                  enemies[c, r].path == null
      invariant forall c, r :: x <= c < enemyCols && 0 <= r < enemyRows ==> enemies[c, r].path == old(enemies[c, r].path)
      invariant score >= old(score)
      invariant forall a :: a in collLibrary && !old(a.alive) ==> !a.alive
      invariant forall a :: a in collLibrary && a.kind != EnemyKind ==> a.pos == old(a.pos) && a.size == old(a.size)
    {
      forall r | 0 <= r < enemyRows && old(enemies[x, r].path) != null && !old(enemies[x, r].alive)
        ensures enemies[x, r].path != null && !enemies[x, r].alive
      {
        assert CellOk(x, r);
      }
      PlaceColumn(x, rng);
    }
  }

  /**
   * The first step of `moveCluster` eastward: nudge the corner one pixel
   * right, then test whether the live part of the formation crosses the
   * right-hand margin.
   */
  method NudgeEast(rng: Random) returns (overstep: bool, ghost space: int)
    requires Consistent()
    modifies this`enemyCorner, this`score, this`deadPlayerTimeout, this`responses, this`Repr, rng`next, Actors()
    ensures Consistent() && old(Repr) <= Repr && fresh(Repr - old(Repr))
    ensures enemyCorner == Point(old(enemyCorner.x) + NudgeDistance, old(enemyCorner.y))
    ensures space == SlotPitch * (enemyCols - Extreme(East))
    ensures overstep <==> enemyCorner.x + (enemyCols * SlotPitch - EnemySpacing) - space > width - WindowMargin
    ensures score >= old(score)
    ensures forall a :: a in collLibrary && !old(a.alive) ==> !a.alive
    ensures forall a :: a in collLibrary && a.kind != EnemyKind ==> a.pos == old(a.pos) && a.size == old(a.size)
  {
    SetClusterPos(Point(enemyCorner.x + NudgeDistance, enemyCorner.y), rng);
    RegistryKept();
    var right := GetRightClusterSpace();
    space := right;
    overstep := enemyCorner.x + (enemyCols * SlotPitch - EnemySpacing) - right > width - WindowMargin;
  }

  /**
   * The first step of `moveCluster` westward: nudge the corner one pixel
   * left, then test whether the live part crosses the left-hand margin.
   */
  method NudgeWest(rng: Random) returns (overstep: bool, ghost space: int)
    requires Consistent()
    modifies this`enemyCorner, this`score, this`deadPlayerTimeout, this`responses, this`Repr, rng`next, Actors()
    ensures Consistent() && old(Repr) <= Repr && fresh(Repr - old(Repr))
    ensures enemyCorner == Point(old(enemyCorner.x) - NudgeDistance, old(enemyCorner.y))
    ensures space == SlotPitch * Extreme(West)
    ensures overstep <==> enemyCorner.x + space < WindowMargin
    ensures score >= old(score)
    ensures forall a :: a in collLibrary && !old(a.alive) ==> !a.alive
    ensures forall a :: a in collLibrary && a.kind != EnemyKind ==> a.pos == old(a.pos) && a.size == old(a.size)
  {
    SetClusterPos(Point(enemyCorner.x - NudgeDistance, enemyCorner.y), rng);
    RegistryKept();
    var left := GetLeftClusterSpace();
    space := left;
    overstep := enemyCorner.x + left < WindowMargin;
  }

  /** The turn of `moveCluster`: take the new direction and step back and down. */
  method Turn(dir: Direction, rng: Random)
    requires Consistent()
    modifies this`clusterDir
    modifies this`enemyCorner, this`score, this`deadPlayerTimeout, this`responses, this`Repr, rng`next, Actors()
    ensures Consistent() && old(Repr) <= Repr && fresh(Repr - old(Repr))
    ensures clusterDir == dir
    ensures enemyCorner == Point(old(enemyCorner.x) + (if dir == East then NudgeDistance else -NudgeDistance),
                                 old(enemyCorner.y) + NudgeDistance * 2)
    ensures score >= old(score)
    ensures forall a :: a in collLibrary && !old(a.alive) ==> !a.alive
    ensures forall a :: a in collLibrary && a.kind != EnemyKind ==> a.pos == old(a.pos) && a.size == old(a.size)
  {
    clusterDir := dir;
    var dx := if dir == East then NudgeDistance else -NudgeDistance;
    SetClusterPos(Point(enemyCorner.x + dx, enemyCorner.y + NudgeDistance * 2), rng);
    RegistryKept();
  }

  /**
   * What one `moveCluster` from direction `dir0` and corner `corner0` leaves.
   * Moving east or west, the formation turns exactly when its nudged live part
   * crosses the margin on that side (`space` being the empty-column width
   * measured after the nudge); a turn reverses the direction and leaves the
   * corner two pixels below where it was, otherwise the nudge stays. Any other
   * direction leaves the corner in place.
   */
  ghost predicate ClusterMoved(dir0: Direction, corner0: Point, flipped: bool, space: int)
    reads this`clusterDir, this`enemyCorner, this`enemyCols
  {
    (dir0 == East ==> (flipped <==> corner0.x + NudgeDistance + (enemyCols * SlotPitch - EnemySpacing) - space > width - WindowMargin)) &&
    (dir0 == West ==> (flipped <==> corner0.x - NudgeDistance + space < WindowMargin)) &&
    (dir0 != East && dir0 != West ==> !flipped && enemyCorner == corner0) &&
    (!flipped && dir0 in {East, West} ==>
       clusterDir == dir0 && enemyCorner == Point(corner0.x + (if clusterDir == East then NudgeDistance else -NudgeDistance), corner0.y)) &&
    (flipped ==> clusterDir != dir0 && clusterDir in {East, West} && enemyCorner == Point(corner0.x, corner0.y + NudgeDistance * 2))
  }

  /**
   * `moveCluster`: nudge the formation one pixel in its direction; if its
   * live part then crosses the window margin, turn, and step back and two
   * pixels down instead. `space` is the empty-column width (right-hand when
   * moving east, left-hand when moving west) measured after the nudge.
   */
  method MoveCluster(rng: Random) returns (ghost flipped: bool, ghost space: int)
    requires Consistent()
    modifies this`clusterDir
    modifies this`enemyCorner, this`score, this`deadPlayerTimeout, this`responses, this`Repr, rng`next, Actors()
    ensures Consistent() && old(Repr) <= Repr && fresh(Repr - old(Repr))
    ensures ClusterMoved(old(clusterDir), old(enemyCorner), flipped, space)
    ensures score >= old(score)
    ensures forall a :: a in collLibrary && !old(a.alive) ==> !a.alive
    ensures forall a :: a in collLibrary && a.kind != EnemyKind ==> a.pos == old(a.pos) && a.size == old(a.size)
  {
    flipped, space := false, 0;
    if clusterDir == East {
      var overstep;
      overstep, space := NudgeEast(rng);
      if overstep {
        flipped := true;
        Turn(West, rng);
      }
    } else if clusterDir == West {
      var overstep;
      overstep, space := NudgeWest(rng);
      if overstep {
        flipped := true;
        Turn(East, rng);
      }
    }
  }

  // ---------------------------------------------------------------------
  // Player

  /** The marker actors of the life counter. */
  ghost function Markers(): set<Actor>
    reads this`lifeCounter, lifeCounter
  {
    set i | 0 <= i < lifeCounter.Length && lifeCounter[i] != null :: lifeCounter[i] as Actor
  }

  /**
   * `consumeLife`: with a life left, take it, revive the fighter and hide
   * the highest-numbered marker still shown (`hidden`, or -1 if none is).
   */
  method ConsumeLife() returns (ghost hidden: int)
    requires Consistent()
    modifies this`playerLives, fighter`alive,
             (set i | 0 <= i < lifeCounter.Length && lifeCounter[i] != null :: lifeCounter[i] as Actor)`alive
    ensures Consistent()
    ensures old(playerLives) == 0 ==>
              playerLives == 0 && hidden == -1 && fighter.alive == old(fighter.alive)
    ensures old(playerLives) > 0 ==>
              playerLives == old(playerLives) - 1 && fighter.alive && -1 <= hidden < lifeCounter.Length &&
              (hidden == -1 <==> forall i :: 0 <= i < lifeCounter.Length ==> !old(lifeCounter[i].alive)) &&
              (hidden != -1 ==> old(lifeCounter[hidden].alive) &&
                                forall i :: hidden < i < lifeCounter.Length ==> !old(lifeCounter[i].alive))
    ensures forall i :: 0 <= i < lifeCounter.Length ==>
              lifeCounter[i].alive == (old(lifeCounter[i].alive) && i != hidden)
  {
    hidden := -1;
    forall i | 0 <= i < lifeCounter.Length ensures lifeCounter[i] != fighter {
      assert MarkerOk(i);
    }
    if playerLives > 0 {
      playerLives := playerLives - 1;
      fighter.SetAlive(true);
      var i := lifeCounter.Length - 1;
      while i >= 0
        invariant -1 <= i < lifeCounter.Length && hidden == -1
        invariant forall j :: i < j < lifeCounter.Length ==> !old(lifeCounter[j].alive)
        invariant forall j :: 0 <= j < lifeCounter.Length ==> lifeCounter[j].alive == old(lifeCounter[j].alive)
      {
        if lifeCounter[i].alive {
          forall j | 0 <= j < lifeCounter.Length && j != i ensures lifeCounter[j] != lifeCounter[i] {
            assert MarkerOk(i) && MarkerOk(j);
          }
          lifeCounter[i].SetAlive(false);
          hidden := i;
          break;
        }
        i := i - 1;
      }
    }
  }

  /** The fighter's horizontal range that `moveFighter` can never leave once inside. */
  ghost predicate FighterInBand()
    requires fighter != null
    reads this`fighter, fighter`pos, fighter`size
  {
    WindowMargin - NudgeDistance * 4 <= fighter.pos.x <= width - WindowMargin - fighter.size.width + NudgeDistance * 4
  }

  /** Where `moveFighter(dir)` takes a live fighter of width `w` standing at `p`. */
  function Stepped(p: Point, dir: Direction, w: int): Point
  {
    if dir == East && p.x + w < width - WindowMargin then Point(p.x + NudgeDistance * 4, p.y)
    else if dir == West && p.x > WindowMargin then Point(p.x - NudgeDistance * 4, p.y)
    else p
  }

  /** Where the arrows held during a tick take a live fighter: west for left alone, east for right alone. */
  function Steered(p: Point, right: bool, left: bool, w: int): Point
  {
    if left && !right then Stepped(p, West, w)
    else if right && !left then Stepped(p, East, w)
    else p
  }

  /**
   * `moveFighter(dir)`: a live fighter steps four pixels east or west unless
   * that side's margin is reached; otherwise nothing happens.
   */
  method MoveFighter(dir: Direction)
    requires Consistent()
    modifies fighter`pos, fighter`xVals, fighter`yVals
    modifies this`score, this`deadPlayerTimeout, this`responses, (set a | a in collLibrary :: a)`alive
    ensures Consistent()
    ensures fighter.pos == (if old(fighter.alive) then Stepped(old(fighter.pos), dir, fighter.size.width) else old(fighter.pos))
    ensures fighter.pos == old(fighter.pos) ==> responses == old(responses) && score == old(score)
    ensures old(FighterInBand()) ==> FighterInBand()
    ensures score >= old(score)
    ensures forall a :: a in collLibrary && !old(a.alive) ==> !a.alive
  {
    if fighter.alive {
      var pos := fighter.pos;
      if dir == East && pos.x + fighter.size.width < width - WindowMargin {
        StepFighter(NudgeDistance * 4);
      } else if dir == West && pos.x > WindowMargin {
        StepFighter(-NudgeDistance * 4);
      }
    }
  }

  /** Moves the fighter `dx` pixels sideways. */
  method StepFighter(dx: int)
    requires Consistent()
    modifies fighter`pos, fighter`xVals, fighter`yVals
    modifies this`score, this`deadPlayerTimeout, this`responses, (set a | a in collLibrary :: a)`alive
    ensures Consistent()
    ensures fighter.pos == Point(old(fighter.pos.x) + dx, old(fighter.pos.y))
    ensures score >= old(score)
    ensures forall a :: a in collLibrary && !old(a.alive) ==> !a.alive
  {
    var p := fighter.pos;
    var hits := fighter.SetLocation(p.x + dx, p.y);
  }

  /** `p` is a player's shot from a fighter of width `w` standing at `from`: centred on its top edge, moving up. */
  ghost predicate FighterShot(p: Actor, from: Point, w: int)
    reads p`pos
  {
    p.kind == ProjectileKind(true) && p.momentum == Point(0, -ProjectileTickDistance) &&
    p.pos == Point(from.x + JavaDiv(w, 2), from.y - ProjectileHeight - 4)
  }

  /** `p` is an enemy's shot from an enemy standing at `from`: centred below it, moving down. */
  ghost predicate EnemyShot(p: Actor, from: Point)
    reads p`pos
  {
    p.kind == ProjectileKind(false) && p.momentum == Point(0, ProjectileTickDistance) &&
    p.pos == Point(from.x + JavaDiv(DefaultEnemySize, 2), from.y + DefaultEnemySize + 4)
  }

  /**
   * `fireFighterWeapon`: a live fighter launches a player shot from the
   * middle of its top edge, moving up by the projectile tick distance.
   */
  method FireFighterWeapon() returns (ghost shot: Actor?)
    requires Consistent()
    modifies this`shots, this`collLibrary, this`Repr
    modifies this`score, this`deadPlayerTimeout, this`responses, (set a | a in collLibrary :: a)`alive
    ensures Consistent() && old(Repr) <= Repr && fresh(Repr - old(Repr))
    ensures !old(fighter.alive) ==>
              shot == null && shots == old(shots) && collLibrary == old(collLibrary) && score == old(score) && Repr == old(Repr)
    ensures old(fighter.alive) ==>
              shot != null && fresh(shot) && shots == old(shots) + [shot] && collLibrary == old(collLibrary) + [shot] &&
              FighterShot(shot, old(fighter.pos), fighter.size.width)
    ensures score >= old(score)
    ensures forall a :: a in old(collLibrary) && !old(a.alive) ==> !a.alive
  {
    shot := null;
    if !fighter.alive {
      return;
    }
    var p := fighter.pos;
    var dim := fighter.size;
    var proj := AddShot(p.x + JavaDiv(dim.width, 2), p.y - ProjectileHeight - 4, -ProjectileTickDistance, true);
    shot := proj;
  }

  /** Creates a projectile at (x, y) moving `modY` per tick and appends it to `shots`. */
  method AddShot(x: int, y: int, modY: int, playerShot: bool) returns (proj: Actor)
    requires Consistent()
    modifies this`shots, this`collLibrary, this`Repr
    modifies this`score, this`deadPlayerTimeout, this`responses, (set a | a in collLibrary :: a)`alive
    ensures Consistent() && Repr == old(Repr) + {proj} && fresh(proj)
    ensures shots == old(shots) + [proj] && collLibrary == old(collLibrary) + [proj]
    ensures proj.kind == ProjectileKind(playerShot) && proj.pos == Point(x, y) && proj.momentum == Point(0, modY)
    ensures score >= old(score)
    ensures forall a :: a in old(collLibrary) && !old(a.alive) ==> !a.alive
  {
    proj := new Actor.Projectile(this, x, y, 0, modY, playerShot);
    shots := shots + [proj];
    Repr := Repr + {proj};
    assert proj !in old(collLibrary);
    DistinctSnoc(old(collLibrary), proj);
  }

  /**
   * `fireEnemyWeapon`: while any enemy lives, pick a column at random and
   * let its lowest live enemy fire a shot downward from the middle of its
   * bottom edge. The first pick is the draw from `rng`; when that column is
   * empty, the source draws again until it hits a live column, which the
   * model leaves open as any live column (`col`, `row` name the shooter).
   */
  method FireEnemyWeapon(rng: Random) returns (ghost col: int, ghost row: int, ghost shot: Actor?)
    requires Consistent()
    modifies this`shots, this`collLibrary, this`Repr, rng`next
    modifies this`score, this`deadPlayerTimeout, this`responses, (set a | a in collLibrary :: a)`alive
    ensures Consistent() && old(Repr) <= Repr && fresh(Repr - old(Repr))
    ensures !old(AnyAlive()) ==>
              shot == null && shots == old(shots) && collLibrary == old(collLibrary) && Repr == old(Repr) &&
              score == old(score) && rng.next == old(rng.next)
    ensures old(AnyAlive()) ==>
              0 <= col < enemyCols && 0 <= row < enemyRows && rng.next == old(rng.next) + 1 &&
              (var drawn := rng.draws(old(rng.next)) % enemyCols; old(IsShooter(drawn, col, row))) &&
              shot != null && fresh(shot) && shots == old(shots) + [shot] && collLibrary == old(collLibrary) + [shot] &&
              EnemyShot(shot, enemies[col, row].pos)
    ensures score >= old(score)
    ensures forall a :: a in old(collLibrary) && !old(a.alive) ==> !a.alive
  {
    col, row, shot := -1, -1, null;
    var anyAlive := AnyEnemyAlive();
    if !anyAlive {
      return;
    }
    var s;
    col, row, s := FireFromLiveColumn(rng);
    shot := s;
  }

  /** The shot of `fireEnemyWeapon` once some enemy is known to live. */
  method FireFromLiveColumn(rng: Random) returns (col: int, row: int, shot: Actor)
    requires Consistent() && AnyAlive()
    modifies this`shots, this`collLibrary, this`Repr, rng`next
    modifies this`score, this`deadPlayerTimeout, this`responses, (set a | a in collLibrary :: a)`alive
    ensures Consistent() && Repr == old(Repr) + {shot} && fresh(shot)
    ensures 0 <= col < enemyCols && 0 <= row < enemyRows && rng.next == old(rng.next) + 1
    ensures var drawn := rng.draws(old(rng.next)) % enemyCols; old(IsShooter(drawn, col, row))
    ensures shots == old(shots) + [shot] && collLibrary == old(collLibrary) + [shot]
    ensures EnemyShot(shot, enemies[col, row].pos)
    ensures score >= old(score)
    ensures forall a :: a in old(collLibrary) && !old(a.alive) ==> !a.alive
  {
    var drawn := rng.NextInt(enemyCols);
    col, row := PickShooter(drawn);
    shot := FireFrom(col, row);
  }

  /** The shot of `fireEnemyWeapon`: from the middle of the bottom edge of the enemy at (c, r), downward. */
  method FireFrom(c: int, r: int) returns (proj: Actor)
    requires Consistent() && 0 <= c < enemyCols && 0 <= r < enemyRows
    modifies this`shots, this`collLibrary, this`Repr
    modifies this`score, this`deadPlayerTimeout, this`responses, (set a | a in collLibrary :: a)`alive
    ensures Consistent() && Repr == old(Repr) + {proj} && fresh(proj)
    ensures shots == old(shots) + [proj] && collLibrary == old(collLibrary) + [proj]
    ensures EnemyShot(proj, enemies[c, r].pos)
    ensures score >= old(score)
    ensures forall a :: a in old(collLibrary) && !old(a.alive) ==> !a.alive
  {
    var e := enemies[c, r];
    assert CellOk(c, r);
    var p := e.pos;
    var dim := e.size;
    proj := AddShot(p.x + JavaDiv(dim.width, 2), p.y + dim.height + 4, ProjectileTickDistance, false);
  }

  /** `getExtreme(WEST) != -1`: whether any enemy of the formation is alive. */
  method AnyEnemyAlive() returns (b: bool)
    requires GridShape()
    ensures b == AnyAlive()
  {
    var extreme := GetExtreme(West);
    ExtremeIsExtreme(West);
    b := extreme != -1;
  }

  /**
   * The shooter `fireEnemyWeapon` finds: the lowest live enemy of the drawn
   * column, or of some live column when the drawn one is empty.
   */
  method PickShooter(drawn: int) returns (col: int, row: int)
    requires GridShape() && 0 <= drawn < enemyCols && AnyAlive()
    ensures 0 <= col < enemyCols && 0 <= row < enemyRows
    ensures IsShooter(drawn, col, row)
  {
    col := drawn;
    row := LowestAlive(col);
    if row == -1 {
      var c, r :| 0 <= c < enemyCols && 0 <= r < enemyRows && enemies[c, r].alive;
      col := c;
      row := LowestAlive(col);
    }
  }

  ghost predicate IsShooter(drawn: int, col: int, row: int)
    requires GridShape() && 0 <= drawn < enemyCols && 0 <= col < enemyCols && 0 <= row < enemyRows
    reads this`enemies, this`enemyCols, this`enemyRows, enemies, (set c, r | 0 <= c < enemies.Length0 && 0 <= r < enemies.Length1 && enemies[c, r] != null :: enemies[c, r] as Actor)`alive
  {
    (ColAlive(drawn) ==> col == drawn) && enemies[col, row].alive && forall r :: row < r < enemyRows ==> !enemies[col, r].alive
  }

  /** Whether a point lies inside the level's bounds, edges included. */
  predicate InField(p: Point)
  {
    0 <= p.x <= width && 0 <= p.y <= height
  }

  /** `y.dispose(); shots.remove(y)`: unregister a shot and drop it from `shots`. */
  method DiscardShot(y: Actor)
    requires Consistent() && y in shots
    modifies this`shots, this`collLibrary
    ensures Consistent()
    ensures shots == RemoveFirst(old(shots), y) && collLibrary == RemoveFirst(old(collLibrary), y)
    ensures y !in shots && forall s :: s in shots <==> s in old(shots) && s != y
  {
    assert y in collLibrary;
    y.Dispose();
    shots := RemoveFirst(shots, y);
    DistinctRemoveFirst(old(shots), y);
    DistinctRemoveFirst(old(collLibrary), y);
    forall s | s in shots ensures s in collLibrary {
      assert s in old(shots) && s != y;
    }
    forall x, r | 0 <= x < enemyCols && 0 <= r < enemyRows
      ensures enemies[x, r] in collLibrary
    {
      assert CellOk(x, r);
    }
    forall i | 0 <= i < lifeCounter.Length
      ensures lifeCounter[i] in collLibrary
    {
      assert MarkerOk(i);
    }
  }

  /** One step of `moveShots`' first loop: move shot `i` and say whether it has left the field. */
  method MoveShot(i: int) returns (outside: bool)
    requires 0 <= i < |shots| && Owned() && ShotsOk() && shots[i] in collLibrary
    modifies (shots[i] as Actor)`pos, (shots[i] as Actor)`xVals, (shots[i] as Actor)`yVals
    modifies this`score, this`deadPlayerTimeout, this`responses, (set a | a in collLibrary :: a)`alive
    ensures shots[i].pos == Point(old(shots[i].pos.x) + shots[i].momentum.x, old(shots[i].pos.y) + shots[i].momentum.y)
    ensures forall j :: 0 <= j < |shots| && j != i ==> shots[j].pos == old(shots[j].pos)
    ensures outside == !InField(shots[i].pos)
    ensures score >= old(score)
    ensures forall a :: a in collLibrary && !old(a.alive) ==> !a.alive
  {
    var x := shots[i];
    assert x in shots;
    var hits := x.Move();
    outside := !InField(x.pos);
  }

  /** `moveShots`' first loop: move every shot, collecting those now outside the field. */
  method MoveAllShots() returns (toRemove: seq<Actor>, ghost kept: seq<bool>)
    requires Owned() && ShotsOk() && forall s :: s in shots ==> s in collLibrary
    modifies (set s | s in shots :: s)`pos, (set s | s in shots :: s)`xVals, (set s | s in shots :: s)`yVals
    modifies this`score, this`deadPlayerTimeout, this`responses, (set a | a in collLibrary :: a)`alive
    ensures shots == old(shots)
    ensures |kept| == |shots|
    ensures forall j :: 0 <= j < |shots| ==>
              shots[j].pos == Point(old(shots[j].pos.x) + shots[j].momentum.x, old(shots[j].pos.y) + shots[j].momentum.y) &&
              kept[j] == InField(shots[j].pos)
    ensures toRemove == Select(shots, Negate(kept))
    ensures score >= old(score)
    ensures forall a :: a in collLibrary && !old(a.alive) ==> !a.alive
  {
    toRemove, kept := [], [];
    ghost var start := seq(|shots|, j requires 0 <= j < |shots| reads * => shots[j].pos);
    for i := 0 to |shots|
      invariant shots == old(shots)
      invariant |kept| == i
      invariant forall j :: 0 <= j < i ==>
                  shots[j].pos == Point(start[j].x + shots[j].momentum.x, start[j].y + shots[j].momentum.y)
      invariant forall j :: i <= j < |shots| ==> shots[j].pos == start[j]
      invariant forall j :: 0 <= j < i ==> kept[j] == InField(shots[j].pos)
      invariant toRemove == Select(shots[..i], Negate(kept))
      invariant score >= old(score)
      invariant forall a :: a in collLibrary && !old(a.alive) ==> !a.alive
    {
      assert shots[i] in shots;
      assert shots[i] in collLibrary;
      var outside := MoveShot(i);
      SelectDroppedStep(shots, kept, !outside);
      toRemove := toRemove + (if outside then [shots[i]] else []);
      kept := kept + [!outside];
    }
    assert shots[..|shots|] == shots;
  }

  /** `moveShots`' second loop: dispose of each listed shot and remove it from `shots`. */
  method DiscardAll(toRemove: seq<Actor>)
    requires Consistent() && Distinct(toRemove) && forall x :: x in toRemove ==> x in shots
    modifies this`shots, this`collLibrary
    ensures Consistent()
    ensures shots == RemoveEach(old(shots), toRemove)
    ensures collLibrary == RemoveEach(old(collLibrary), toRemove)
  {
    for k := 0 to |toRemove|
      invariant Consistent()
      invariant RemoveEach(shots, toRemove[k..]) == RemoveEach(old(shots), toRemove)
      invariant RemoveEach(collLibrary, toRemove[k..]) == RemoveEach(old(collLibrary), toRemove)
      invariant forall k' :: k <= k' < |toRemove| ==> toRemove[k'] in shots
    {
      assert toRemove[k..][0] == toRemove[k] && toRemove[k..][1..] == toRemove[k + 1..];
      DiscardShot(toRemove[k]);
    }
  }

  /**
   * `moveShots`: every shot moves by its momentum; those that end up outside
   * the field are unregistered and dropped from `shots`, the rest stay in
   * order (`kept` marks them).
   */
  method MoveShots() returns (ghost kept: seq<bool>)
    requires Consistent()
    modifies this`shots, this`collLibrary
    modifies (set s | s in shots :: s)`pos, (set s | s in shots :: s)`xVals, (set s | s in shots :: s)`yVals
    modifies this`score, this`deadPlayerTimeout, this`responses, (set a | a in collLibrary :: a)`alive
    ensures Consistent()
    ensures |kept| == |old(shots)|
    ensures forall j :: 0 <= j < |old(shots)| ==>
              var s := old(shots)[j];
              s.pos == Point(old(s.pos.x) + s.momentum.x, old(s.pos.y) + s.momentum.y) && kept[j] == InField(s.pos)
    ensures shots == Select(old(shots), kept)
    ensures forall s :: s in shots ==> InField(s.pos)
    ensures collLibrary == RemoveEach(old(collLibrary), Select(old(shots), Negate(kept)))
    ensures score >= old(score)
    ensures forall a :: a in old(collLibrary) && !old(a.alive) ==> !a.alive
  {
    var toRemove;
    toRemove, kept := MoveAllShots();
    ConsistentKept();
    SelectDistinct(shots, Negate(kept));
    RemoveEachSelect(shots, kept);
    ghost var moved := shots;
    DiscardAll(toRemove);
    forall s | s in shots
      ensures InField(s.pos)
    {
      SelectPicksKept(moved, kept, s);
    }
  }

  // ---------------------------------------------------------------------
  // Level set-up

  /** Actor `a` sits in the grid cell it was created for. */
  ghost predicate IsCell(a: Actor)
    reads this`enemies, enemies
  {
    0 <= a.slot.0 < enemies.Length0 && 0 <= a.slot.1 < enemies.Length1 && enemies[a.slot.0, a.slot.1] == a
  }

  /** Actor `a` sits in the life-counter entry it was created for. */
  ghost predicate IsMarker(a: Actor)
    reads this`lifeCounter, lifeCounter
  {
    0 <= a.slot.0 < lifeCounter.Length && a.slot.1 == -1 && lifeCounter[a.slot.0] == a
  }

  /** The enemies of rows 0 to n - 1 of column `c`, top to bottom. */
  ghost function ColumnCells(c: int, n: int): (s: seq<Actor>)
    requires 0 <= c < enemies.Length0 && 0 <= n <= enemies.Length1
    requires forall r :: 0 <= r < n ==> enemies[c, r] != null
    reads this`enemies, enemies
    ensures |s| == n && forall r :: 0 <= r < n ==> s[r] == enemies[c, r]
  {
    if n == 0 then [] else ColumnCells(c, n - 1) + [enemies[c, n - 1] as Actor]
  }

  /** The enemies of columns 0 to m - 1, column by column: the order the source's nested loops visit them. */
  ghost function GridCells(m: int): seq<Actor>
    requires 0 <= m <= enemies.Length0
    requires forall c, r :: 0 <= c < m && 0 <= r < enemies.Length1 ==> enemies[c, r] != null
    reads this`enemies, enemies
  {
    if m == 0 then [] else GridCells(m - 1) + ColumnCells(m - 1, enemies.Length1)
  }

  /** When every cell knows its slot, the grid's list holds exactly the actors sitting in their cells. */
  lemma {:induction false} GridCellsAreCells(m: int)
    requires 0 <= m <= enemies.Length0
    requires forall c, r :: 0 <= c < enemies.Length0 && 0 <= r < enemies.Length1 ==>
               enemies[c, r] != null && enemies[c, r].slot == (c, r)
    ensures forall a :: a in GridCells(m) <==> IsCell(a) && a.slot.0 < m
  {
    if m > 0 {
      GridCellsAreCells(m - 1);
      forall a ensures a in ColumnCells(m - 1, enemies.Length1) <==> IsCell(a) && a.slot.0 == m - 1 {
        if IsCell(a) && a.slot.0 == m - 1 {
          assert ColumnCells(m - 1, enemies.Length1)[a.slot.1] == a;
        }
      }
    }
  }

  /** The life markers of entries 0 to n - 1, in order. */
  ghost function MarkerCells(n: int): seq<Actor>
    requires 0 <= n <= lifeCounter.Length
    requires forall i :: 0 <= i < n ==> lifeCounter[i] != null
    reads this`lifeCounter, lifeCounter
  {
    if n == 0 then [] else MarkerCells(n - 1) + [lifeCounter[n - 1] as Actor]
  }

  /** When every marker knows its entry, the markers' list holds exactly the actors sitting in their entries. */
  lemma {:induction false} MarkerCellsAreMarkers(n: int)
    requires 0 <= n <= lifeCounter.Length
    requires forall i :: 0 <= i < lifeCounter.Length ==> lifeCounter[i] != null && lifeCounter[i].slot == (i, -1)
    ensures forall a :: a in MarkerCells(n) <==> IsMarker(a) && a.slot.0 < n
  {
    if n > 0 {
      MarkerCellsAreMarkers(n - 1);
    }
  }

  /** The first loop of `setLevelParams`' clean-up: dispose of every enemy of the old grid, column by column. */
  method DisposeGrid()
    requires forall c, r :: 0 <= c < enemies.Length0 && 0 <= r < enemies.Length1 ==>
               enemies[c, r] != null && enemies[c, r].parent == this
    modifies this`collLibrary
    ensures collLibrary == RemoveEach(old(collLibrary), GridCells(enemies.Length0))
  {
    for x := 0 to enemies.Length0
      invariant collLibrary == RemoveEach(old(collLibrary), GridCells(x))
    {
      RemoveEachAppend(old(collLibrary), GridCells(x), ColumnCells(x, enemies.Length1));
      DisposeColumn(x);
    }
  }

  /** The inner loop of the grid's clean-up: dispose of the enemies of column `x`, top to bottom. */
  method DisposeColumn(x: int)
    requires 0 <= x < enemies.Length0
    requires forall r :: 0 <= r < enemies.Length1 ==> enemies[x, r] != null && enemies[x, r].parent == this
    modifies this`collLibrary
    ensures collLibrary == RemoveEach(old(collLibrary), ColumnCells(x, enemies.Length1))
  {
    for y := 0 to enemies.Length1
      invariant collLibrary == RemoveEach(old(collLibrary), ColumnCells(x, y))
    {
      var e: Actor := enemies[x, y];
      RemoveEachSnoc(old(collLibrary), ColumnCells(x, y), e);
      e.Dispose();
    }
  }

  /** The second loop of `setLevelParams`' clean-up: dispose of every old life marker. */
  method DisposeMarkers()
    requires forall i :: 0 <= i < lifeCounter.Length ==> lifeCounter[i] != null && lifeCounter[i].parent == this
    modifies this`collLibrary
    ensures collLibrary == RemoveEach(old(collLibrary), MarkerCells(lifeCounter.Length))
  {
    for i := 0 to lifeCounter.Length
      invariant collLibrary == RemoveEach(old(collLibrary), MarkerCells(i))
    {
      var m: Actor := lifeCounter[i];
      RemoveEachSnoc(old(collLibrary), MarkerCells(i), m);
      m.Dispose();
    }
  }

  /** Cell (c, r) holds a new enemy: the one created for it, alive, without a path, in the footprint and registered. */
  ghost predicate NewCell(c: int, r: int)
    requires 0 <= c < enemies.Length0 && 0 <= r < enemies.Length1
    reads this`Repr, this`collLibrary, this`enemies, enemies, (set c, r | 0 <= c < enemies.Length0 && 0 <= r < enemies.Length1 && enemies[c, r] != null :: enemies[c, r] as Actor)`path, (set c, r | 0 <= c < enemies.Length0 && 0 <= r < enemies.Length1 && enemies[c, r] != null :: enemies[c, r] as Actor)`size, (set c, r | 0 <= c < enemies.Length0 && 0 <= r < enemies.Length1 && enemies[c, r] != null :: enemies[c, r] as Actor)`alive
  {
    CellOk(c, r) && enemies[c, r].path == null && enemies[c, r].alive && enemies[c, r] in Repr && enemies[c, r] in collLibrary
  }

  /** The inner loop of the grid's creation: a new enemy at the origin for every row of column `x`. */
  method FillColumn(x: int) returns (ghost made: seq<Actor>)
    requires 0 <= x < enemies.Length0 && Owned() && Distinct(collLibrary)
    modifies this`collLibrary, this`Repr, enemies
    ensures collLibrary == old(collLibrary) + made && Owned() && Distinct(collLibrary)
    ensures old(Repr) <= Repr && fresh(Repr - old(Repr))
    ensures forall a :: a in made ==> fresh(a) && a.slot.0 == x && IsCell(a)
    ensures forall r :: 0 <= r < enemies.Length1 ==> NewCell(x, r) && fresh(enemies[x, r])
    ensures forall c, r :: 0 <= c < enemies.Length0 && 0 <= r < enemies.Length1 && c != x ==> enemies[c, r] == old(enemies[c, r])
  {
    made := [];
    for y := 0 to enemies.Length1
      invariant collLibrary == old(collLibrary) + made && Owned() && Distinct(collLibrary)
      invariant old(Repr) <= Repr && fresh(Repr - old(Repr))
      invariant forall a :: a in made ==> fresh(a) && a.slot.0 == x && a.slot.1 < y && IsCell(a)
      invariant forall r :: 0 <= r < y ==> NewCell(x, r) && fresh(enemies[x, r])
      invariant forall c, r :: 0 <= c < enemies.Length0 && 0 <= r < enemies.Length1 && c != x ==> enemies[c, r] == old(enemies[c, r])
    {
      var e := new Actor.Enemy(this, DefaultEnemySize, Point(0, 0), (x, y));
      DistinctSnoc(old(collLibrary) + made, e);
      enemies[x, y] := e;
      Repr := Repr + {e};
      made := made + [e];
    }
  }

  /**
   * `setLevelParams`' grid creation: as many columns as fit between the two
   * margins, `enemyRows` rows, and a new enemy at the origin in every cell.
   */
  method FillGrid() returns (ghost made: seq<Actor>)
    requires Owned() && Distinct(collLibrary) && enemyRows >= 0 && width >= WindowMargin * 2 + SlotPitch
    modifies this`enemies, this`enemyCols, this`collLibrary, this`Repr
    ensures enemyCols == JavaDiv(width - WindowMargin * 2, SlotPitch) && enemyCols >= 1
    ensures fresh(enemies) && enemies in Repr && enemies.Length0 == enemyCols && enemies.Length1 == enemyRows
    ensures collLibrary == old(collLibrary) + made && Owned() && Distinct(collLibrary)
    ensures old(Repr) <= Repr && fresh(Repr - old(Repr))
    ensures forall a :: a in made ==> fresh(a) && IsCell(a)
    ensures forall c, r :: 0 <= c < enemyCols && 0 <= r < enemyRows ==> NewCell(c, r) && fresh(enemies[c, r])
  {
    var cols := JavaDiv(width - WindowMargin * 2, SlotPitch);
    enemyCols := cols;
    enemies := new Actor?[enemyCols, enemyRows];
    Repr := Repr + {enemies};
    made := [];
    for x := 0 to cols
      invariant collLibrary == old(collLibrary) + made && Owned() && Distinct(collLibrary)
      invariant enemyCols == cols && fresh(enemies) && enemies.Length0 == enemyCols && enemies.Length1 == enemyRows
      invariant old(Repr) <= Repr && fresh(Repr - old(Repr)) && enemies in Repr
      invariant forall a :: a in made ==> fresh(a) && a.slot.0 < x && IsCell(a)
      invariant forall c, r :: 0 <= c < x && 0 <= r < enemyRows ==> NewCell(c, r) && fresh(enemies[c, r])
    {
      var column := FillColumn(x);
      made := made + column;
    }
  }

  /** With every enemy alive, the live part of the formation is the whole grid. */
  lemma AllAliveExtremes()
    requires GridShape() && enemyCols >= 1 && enemyRows >= 1
    requires forall c, r :: 0 <= c < enemyCols && 0 <= r < enemyRows ==> enemies[c, r].alive
    ensures Extreme(West) == 0 && Extreme(East) == enemyCols && Extreme(North) == 0 && Extreme(South) == enemyRows
  {
    assert enemies[0, 0].alive && enemies[enemyCols - 1, enemyRows - 1].alive;
    assert enemies[0, enemyRows - 1].alive && enemies[enemyCols - 1, 0].alive;
  }

  /**
   * `setLevelParams`' last loop: a new life counter holding one plain
   * fighter per remaining life, lined up along the bottom edge from the
   * left, each placed (and so scanned for collisions) before it is made
   * unable to collide.
   */
  method PlaceMarkers() returns (ghost made: seq<Actor>)
    requires Owned() && Distinct(collLibrary) && playerLives >= 0
    modifies this`lifeCounter, this`collLibrary, this`Repr
    modifies this`score, this`deadPlayerTimeout, this`responses, (set a | a in collLibrary :: a)`alive
    ensures fresh(lifeCounter) && lifeCounter in Repr && lifeCounter.Length == playerLives
    ensures collLibrary == old(collLibrary) + made && Owned() && Distinct(collLibrary)
    ensures old(Repr) <= Repr && fresh(Repr - old(Repr))
    ensures forall a :: a in made ==> fresh(a) && a in Repr && IsMarker(a)
    ensures forall i :: 0 <= i < lifeCounter.Length ==>
              MarkerOk(i) && lifeCounter[i] in collLibrary && fresh(lifeCounter[i]) && !lifeCounter[i].canCollide &&
              lifeCounter[i].pos == Point((DefaultEnemySize - 6) * i, height - (DefaultEnemySize - 6))
    ensures score >= old(score)
  {
    lifeCounter := new Actor?[playerLives];
    Repr := Repr + {lifeCounter};
    made := [];
    for i := 0 to playerLives
      invariant collLibrary == old(collLibrary) + made && Owned() && Distinct(collLibrary)
      invariant fresh(lifeCounter) && lifeCounter.Length == playerLives
      invariant old(Repr) <= Repr && fresh(Repr - old(Repr)) && lifeCounter in Repr
      invariant forall a :: a in made ==> fresh(a) && a in Repr && a.slot.0 < i && IsMarker(a)
      invariant forall j :: 0 <= j < i ==>
                  MarkerOk(j) && lifeCounter[j] in collLibrary && fresh(lifeCounter[j]) && !lifeCounter[j].canCollide &&
                  lifeCounter[j].pos == Point((DefaultEnemySize - 6) * j, height - (DefaultEnemySize - 6))
      invariant score >= old(score)
    {
      var pf := PlaceMarker(i);
      made := made + [pf];
    }
  }

  /** One marker of the life counter: a plain fighter for entry `i`, placed, then made unable to collide. */
  method PlaceMarker(i: int) returns (pf: Actor)
    requires 0 <= i < lifeCounter.Length && Owned() && Distinct(collLibrary)
    modifies this`collLibrary, this`Repr, lifeCounter
    modifies this`score, this`deadPlayerTimeout, this`responses, (set a | a in collLibrary :: a)`alive
    ensures fresh(pf) && collLibrary == old(collLibrary) + [pf] && Owned() && Distinct(collLibrary)
    ensures Repr == old(Repr) + {pf}
    ensures lifeCounter[i] == pf && MarkerOk(i) && !pf.canCollide &&
            pf.pos == Point((DefaultEnemySize - 6) * i, height - (DefaultEnemySize - 6))
    ensures forall j :: 0 <= j < lifeCounter.Length && j != i ==> lifeCounter[j] == old(lifeCounter[j])
    ensures score >= old(score)
  {
    pf := new Actor.PlayerFighter(this, DefaultEnemySize - 6, false, (i, -1));
    DistinctSnoc(old(collLibrary), pf);
    var hits := pf.SetLocation(pf.size.width * i, height - pf.size.height);
    pf.SetCanCollide(false);
    lifeCounter[i] := pf;
    Repr := Repr + {pf};
  }

  /** The old grid's enemies and the old life markers, disposed of in the source's order. */
  method DisposeFormation()
    requires Distinct(collLibrary)
    requires forall c, r :: 0 <= c < enemies.Length0 && 0 <= r < enemies.Length1 ==>
               enemies[c, r] != null && enemies[c, r].parent == this && enemies[c, r].slot == (c, r)
    requires forall i :: 0 <= i < lifeCounter.Length ==>
               lifeCounter[i] != null && lifeCounter[i].parent == this && lifeCounter[i].slot == (i, -1)
    modifies this`collLibrary
    ensures Distinct(collLibrary)
    ensures forall a :: a in collLibrary <==> a in old(collLibrary) && !IsCell(a) && !IsMarker(a)
  {
    DisposeCells();
    DisposeLifeMarkers();
  }

  /** The old grid's enemies disposed of: exactly the actors sitting in their cells leave the registry. */
  method DisposeCells()
    requires Distinct(collLibrary)
    requires forall c, r :: 0 <= c < enemies.Length0 && 0 <= r < enemies.Length1 ==>
               enemies[c, r] != null && enemies[c, r].parent == this && enemies[c, r].slot == (c, r)
    modifies this`collLibrary
    ensures Distinct(collLibrary)
    ensures forall a :: a in collLibrary <==> a in old(collLibrary) && !IsCell(a)
  {
    DisposeGrid();
    GridCellsAreCells(enemies.Length0);
    RemoveEachDistinct(old(collLibrary), GridCells(enemies.Length0));
  }

  /** The old life markers disposed of: exactly the actors sitting in their entries leave the registry. */
  method DisposeLifeMarkers()
    requires Distinct(collLibrary)
    requires forall i :: 0 <= i < lifeCounter.Length ==>
               lifeCounter[i] != null && lifeCounter[i].parent == this && lifeCounter[i].slot == (i, -1)
    modifies this`collLibrary
    ensures Distinct(collLibrary)
    ensures forall a :: a in collLibrary <==> a in old(collLibrary) && !IsMarker(a)
  {
    DisposeMarkers();
    MarkerCellsAreMarkers(lifeCounter.Length);
    RemoveEachDistinct(old(collLibrary), MarkerCells(lifeCounter.Length));
  }

  /** What the invariant says of the parts `setLevelParams` takes apart and keeps. */
  lemma TeardownFacts()
    requires Consistent()
    ensures Layout() && FighterOk() && Owned() && Distinct(collLibrary) && fighter in collLibrary
    ensures forall a :: a in collLibrary ==> a in Repr
    ensures forall c, r :: 0 <= c < enemies.Length0 && 0 <= r < enemies.Length1 ==>
              enemies[c, r] != null && enemies[c, r].parent == this && enemies[c, r].slot == (c, r) &&
              enemies[c, r].kind == EnemyKind
    ensures forall i :: 0 <= i < lifeCounter.Length ==>
              lifeCounter[i] != null && lifeCounter[i].parent == this && lifeCounter[i].slot == (i, -1) &&
              lifeCounter[i].kind == FighterKind(false)
  {
    forall c, r | 0 <= c < enemies.Length0 && 0 <= r < enemies.Length1
      ensures enemies[c, r] != null && enemies[c, r].parent == this && enemies[c, r].slot == (c, r)
      ensures enemies[c, r].kind == EnemyKind
    {
      assert CellOk(c, r);
    }
    forall i | 0 <= i < lifeCounter.Length
      ensures lifeCounter[i] != null && lifeCounter[i].parent == this && lifeCounter[i].slot == (i, -1)
      ensures lifeCounter[i].kind == FighterKind(false)
    {
      assert MarkerOk(i);
    }
  }

  /**
   * The middle of `setLevelParams(lvl)`: the level's tunables, then the old
   * formation and life markers disposed of.
   */
  method Teardown(lvl: int)
    requires Layout() && FighterOk() && Owned() && Distinct(collLibrary) && fighter in collLibrary
    requires forall a :: a in collLibrary ==> a in Repr
    requires forall c, r :: 0 <= c < enemies.Length0 && 0 <= r < enemies.Length1 ==>
               enemies[c, r] != null && enemies[c, r].parent == this && enemies[c, r].slot == (c, r) &&
               enemies[c, r].kind == EnemyKind
    requires forall i :: 0 <= i < lifeCounter.Length ==>
               lifeCounter[i] != null && lifeCounter[i].parent == this && lifeCounter[i].slot == (i, -1) &&
               lifeCounter[i].kind == FighterKind(false)
    modifies this`collLibrary, this`enemyRows, this`maximumMovingEnemies, this`enemyDispatchDelay, this`enemyFireDelay,
             this`score, this`playerLives
    ensures enemyRows == 6 + JavaDiv(lvl - 1, 2) && maximumMovingEnemies == 2 + (lvl - 1) * 2
    ensures enemyDispatchDelay == 40 - 5 * (lvl - 1) && enemyFireDelay == 40 - 5 * (lvl - 1)
    ensures score == old(score) + 30 * (lvl - 1)
    ensures playerLives == old(playerLives) + (if lvl % 4 == 0 then 1 else 0)
    ensures Layout() && FighterOk() && Owned() && Distinct(collLibrary) && fighter in collLibrary
    ensures forall a :: a in collLibrary ==> a in Repr
    ensures forall a :: a in collLibrary <==> a in old(collLibrary) && !IsCell(a) && !IsMarker(a)
  {
    enemyRows := 6 + JavaDiv(lvl - 1, 2);
    maximumMovingEnemies := 2 + (lvl - 1) * 2;
    enemyDispatchDelay := 40 - 5 * (lvl - 1);
    enemyFireDelay := 40 - 5 * (lvl - 1);
    score := score + 30 * (lvl - 1);
    if lvl % 4 == 0 {
      playerLives := playerLives + 1;
    }
    DisposeFormation();
  }

  /** `setLevelParams`' first loop: dispose of every shot and remove it from `shots`. */
  method ClearShots()
    requires Consistent()
    modifies this`shots, this`collLibrary
    ensures Consistent() && shots == []
    ensures forall a :: a in collLibrary <==> a in old(collLibrary) && a !in old(shots)
  {
    RemoveEachItself(shots);
    DiscardAll(shots);
    RemoveEachDistinct(old(collLibrary), old(shots));
  }

  /** The formation's part of the invariant survives a step that leaves the grid alone and only grows the footprint. */
  twostate lemma FormationKept()
    requires old(FormationOk())
    requires unchanged(this`enemies, this`enemyCols, this`enemyRows, this`playerLives)
    requires unchanged(enemies)
    requires unchanged((set c, r | 0 <= c < enemies.Length0 && 0 <= r < enemies.Length1 && enemies[c, r] != null :: enemies[c, r] as Actor)`path, (set c, r | 0 <= c < enemies.Length0 && 0 <= r < enemies.Length1 && enemies[c, r] != null :: enemies[c, r] as Actor)`size)
    requires old(Repr) <= Repr && lifeCounter in Repr && forall a :: a in collLibrary ==> a in Repr
    ensures FormationOk()
  {
    forall c, r | 0 <= c < enemyCols && 0 <= r < enemyRows ensures CellOk(c, r) {
      assert old(CellOk(c, r));
    }
  }

  /**
   * `setLevelParams`' new formation: a new grid of enemies, whose (all live)
   * extent centres it between the side edges at the top margin, then placed.
   */
  method BuildFormation(rng: Random) returns (ghost cells: seq<Actor>)
    requires Layout() && Owned() && Distinct(collLibrary) && enemyRows >= 1
    requires forall a :: a in collLibrary ==> a in Repr
    modifies this`enemies, this`enemyCols, this`collLibrary, this`Repr, this`enemyCorner
    modifies this`score, this`deadPlayerTimeout, this`responses, rng`next, Repr - {this, speed}
    ensures FormationOk() && Owned() && Distinct(collLibrary) && CellsRegistered()
    ensures old(Repr) <= Repr && fresh(Repr - old(Repr)) && forall a :: a in collLibrary ==> a in Repr
    ensures enemyCols == JavaDiv(width - WindowMargin * 2, SlotPitch) && enemyCols >= 1 && fresh(enemies)
    ensures enemyCorner == Point(JavaDiv(width - (enemyCols * SlotPitch - EnemySpacing), 2), WindowMargin)
    ensures forall c, r :: 0 <= c < enemyCols && 0 <= r < enemyRows ==>
              fresh(enemies[c, r]) && enemies[c, r].path == null && enemies[c, r].pos == SlotOf(enemyCorner, c, r)
    ensures collLibrary == old(collLibrary) + cells && forall a :: a in cells ==> fresh(a) && IsCell(a)
    ensures forall a :: a in old(collLibrary) && a.kind != EnemyKind ==> a.pos == old(a.pos) && a.size == old(a.size)
    ensures score >= old(score)
  {
    cells := NewGrid();
    SetClusterPos(enemyCorner, rng);
  }

  /**
   * `setLevelParams`' new grid and the corner that centres it: every enemy
   * is alive, so the formation's extent is the whole grid.
   */
  method NewGrid() returns (ghost cells: seq<Actor>)
    requires Layout() && Owned() && Distinct(collLibrary) && enemyRows >= 1
    requires forall a :: a in collLibrary ==> a in Repr
    modifies this`enemies, this`enemyCols, this`collLibrary, this`Repr, this`enemyCorner
    ensures FormationOk() && Owned() && Distinct(collLibrary) && CellsRegistered()
    ensures old(Repr) <= Repr && fresh(Repr - old(Repr)) && forall a :: a in collLibrary ==> a in Repr
    ensures enemyCols == JavaDiv(width - WindowMargin * 2, SlotPitch) && enemyCols >= 1 && fresh(enemies)
    ensures enemyCorner == Point(JavaDiv(width - (enemyCols * SlotPitch - EnemySpacing), 2), WindowMargin)
    ensures forall c, r :: 0 <= c < enemyCols && 0 <= r < enemyRows ==> fresh(enemies[c, r]) && enemies[c, r].path == null
    ensures collLibrary == old(collLibrary) + cells && forall a :: a in cells ==> fresh(a) && IsCell(a)
  {
    cells := FillGrid();
    forall a | a in collLibrary ensures a in Repr {
      if a in cells {
        assert NewCell(a.slot.0, a.slot.1);
      }
    }
    NewFormationOk();
    var size := GetClusterSize();
    AllAliveExtremes();
    enemyCorner := Point(JavaDiv(width - size.width, 2), WindowMargin);
  }

  /** A grid of new enemies satisfies the formation's part of the invariant, and every one of them is alive without a path. */
  lemma NewFormationOk()
    requires Layout() && enemies.Length0 == enemyCols && enemies.Length1 == enemyRows
    requires forall c, r :: 0 <= c < enemyCols && 0 <= r < enemyRows ==> NewCell(c, r)
    requires forall a :: a in collLibrary ==> a in Repr
    ensures FormationOk() && CellsRegistered()
    ensures forall c, r :: 0 <= c < enemyCols && 0 <= r < enemyRows ==> enemies[c, r].path == null && enemies[c, r].alive
  {
    forall c, r | 0 <= c < enemyCols && 0 <= r < enemyRows
      ensures CellOk(c, r) && enemies[c, r] != null && enemies[c, r] in Repr && enemies[c, r] in collLibrary
      ensures enemies[c, r].path == null && enemies[c, r].alive
    {
      assert NewCell(c, r);
    }
  }

  /**
   * The second half of `setLevelParams`: the new formation, then a new life
   * counter. `made` lists the actors it registers, in order.
   */
  method Rebuild(rng: Random) returns (ghost made: seq<Actor>)
    requires Layout() && FighterOk() && Owned() && Distinct(collLibrary) && fighter in collLibrary
    requires forall a :: a in collLibrary ==> a in Repr
    requires shots == [] && enemyRows >= 1
    modifies this`enemies, this`enemyCols, this`collLibrary, this`Repr, this`enemyCorner, this`lifeCounter
    modifies this`score, this`deadPlayerTimeout, this`responses, rng`next, Repr - {this, speed}
    ensures Consistent() && old(Repr) <= Repr && fresh(Repr - old(Repr))
    ensures enemyCols == JavaDiv(width - WindowMargin * 2, SlotPitch) && enemyCols >= 1
    ensures fresh(enemies) && fresh(lifeCounter) && lifeCounter.Length == playerLives
    ensures enemyCorner == Point(JavaDiv(width - (enemyCols * SlotPitch - EnemySpacing), 2), WindowMargin)
    ensures forall c, r :: 0 <= c < enemyCols && 0 <= r < enemyRows ==>
              fresh(enemies[c, r]) && enemies[c, r].path == null && enemies[c, r].pos == SlotOf(enemyCorner, c, r)
    ensures forall i :: 0 <= i < lifeCounter.Length ==>
              fresh(lifeCounter[i]) && !lifeCounter[i].canCollide &&
              lifeCounter[i].pos == Point((DefaultEnemySize - 6) * i, height - (DefaultEnemySize - 6))
    ensures collLibrary == old(collLibrary) + made
    ensures forall a :: a in made ==> fresh(a) && (IsCell(a) || IsMarker(a))
    ensures fighter.pos == old(fighter.pos) && fighter.size == old(fighter.size)
    ensures score >= old(score)
  {
    var cells := BuildFormation(rng);
    label Placed:
    var markers := PlaceMarkers();
    FormationKept@Placed();
    forall c, r | 0 <= c < enemyCols && 0 <= r < enemyRows
      ensures fresh(enemies[c, r]) && enemies[c, r].path == null && enemies[c, r].pos == SlotOf(enemyCorner, c, r)
    {
      assert old@Placed(enemies[c, r].pos) == SlotOf(enemyCorner, c, r);
    }
    made := cells + markers;
  }

  /** The shared travel distance and the level's tunables as `setLevelParams(lvl)` sets them. */
  ghost predicate LevelTunables(lvl: int)
    reads speed`travelDistance, this`enemyRows, this`maximumMovingEnemies, this`enemyDispatchDelay, this`enemyFireDelay
  {
    speed.travelDistance == 1.2 + 0.3 * (lvl as real) &&
    enemyRows == 6 + JavaDiv(lvl - 1, 2) && maximumMovingEnemies == 2 + (lvl - 1) * 2 &&
    enemyDispatchDelay == 40 - 5 * (lvl - 1) && enemyFireDelay == 40 - 5 * (lvl - 1)
  }

  /**
   * A formation as `setLevelParams` leaves it: as many columns as fit
   * between the margins, centred at the top margin, every enemy at its slot
   * without a path.
   */
  ghost predicate FormationAtRest()
    reads this`enemies, this`enemyCols, this`enemyRows, this`enemyCorner, enemies, (set c, r | 0 <= c < enemies.Length0 && 0 <= r < enemies.Length1 && enemies[c, r] != null :: enemies[c, r] as Actor)`path, (set c, r | 0 <= c < enemies.Length0 && 0 <= r < enemies.Length1 && enemies[c, r] != null :: enemies[c, r] as Actor)`pos
  {
    enemyCols == JavaDiv(width - WindowMargin * 2, SlotPitch) && enemyCols >= 1 &&
    enemyCorner == Point(JavaDiv(width - (enemyCols * SlotPitch - EnemySpacing), 2), WindowMargin) &&
    enemies.Length0 == enemyCols && enemies.Length1 == enemyRows &&
    forall c, r :: 0 <= c < enemyCols && 0 <= r < enemyRows ==>
      enemies[c, r] != null && enemies[c, r].path == null && enemies[c, r].pos == SlotOf(enemyCorner, c, r)
  }

  /**
   * `setLevelParams(lvl)`: reset the shared travel distance and the level's
   * tunables, dispose of every shot, enemy and life marker, then build a new
   * formation and a new life counter. The source only calls it with a level
   * of at least 1.
   */
  method SetLevelParams(lvl: int, rng: Random)
    requires Consistent() && lvl >= 1
    modifies this`shots, this`collLibrary, this`enemyRows, this`maximumMovingEnemies, this`enemyDispatchDelay,
             this`enemyFireDelay, this`score, this`playerLives, this`enemies, this`enemyCols, this`Repr,
             this`enemyCorner, this`lifeCounter, this`deadPlayerTimeout, this`responses, rng`next, speed`travelDistance,
             Repr - {this, speed}
    ensures Consistent() && old(Repr) <= Repr && fresh(Repr - old(Repr))
    ensures LevelTunables(lvl) && shots == [] && FormationAtRest()
    ensures playerLives == old(playerLives) + (if lvl % 4 == 0 then 1 else 0)
    ensures score >= old(score) + 30 * (lvl - 1)
    ensures fresh(enemies) && fresh(lifeCounter) && lifeCounter.Length == playerLives
    ensures forall c, r :: 0 <= c < enemyCols && 0 <= r < enemyRows ==> fresh(enemies[c, r])
    ensures forall i :: 0 <= i < lifeCounter.Length ==>
              fresh(lifeCounter[i]) && !lifeCounter[i].canCollide &&
              lifeCounter[i].pos == Point((DefaultEnemySize - 6) * i, height - (DefaultEnemySize - 6))
    ensures forall a :: a in old(collLibrary) ==>
              (a in collLibrary <==> a !in old(shots) && !old(IsCell(a)) && !old(IsMarker(a)))
    ensures forall a :: a in collLibrary && a !in old(collLibrary) ==> fresh(a) && (IsCell(a) || IsMarker(a))
    ensures fighter.pos == old(fighter.pos) && fighter.size == old(fighter.size)
  {
    ClearLevel(lvl);
    var made := Rebuild(rng);
  }

  /**
   * The first half of `setLevelParams(lvl)`: the new travel distance, every
   * shot disposed of, the level's tunables, and the old formation and life
   * markers disposed of.
   */
  method ClearLevel(lvl: int)
    requires Consistent()
    modifies speed`travelDistance, this`shots, this`collLibrary
    modifies this`enemyRows, this`maximumMovingEnemies, this`enemyDispatchDelay, this`enemyFireDelay, this`score, this`playerLives
    ensures LevelTunables(lvl) && shots == []
    ensures score == old(score) + 30 * (lvl - 1)
    ensures playerLives == old(playerLives) + (if lvl % 4 == 0 then 1 else 0)
    ensures Layout() && FighterOk() && Owned() && Distinct(collLibrary) && fighter in collLibrary
    ensures forall a :: a in collLibrary ==> a in Repr
    ensures forall a :: a in collLibrary <==> a in old(collLibrary) && a !in old(shots) && !old(IsCell(a)) && !old(IsMarker(a))
  {
    speed.SetTravelDistance(1.2 + 0.3 * (lvl as real));
    ClearShots();
    TeardownFacts();
    Teardown(lvl);
  }

  // ---------------------------------------------------------------------
  // Dispatching enemies

  /**
   * Sends the enemy of cell (c, r) on a dive toward the point 100 pixels
   * below the fighter. Any path the enemy had is replaced.
   */
  method SendOut(c: int, r: int, rng: Random) returns (p: TravelingPath)
    requires FormationOk() && Owned() && FighterOk() && 0 <= c < enemyCols && 0 <= r < enemyRows
    modifies this`Repr, rng`next, enemies[c, r]`path
    ensures FormationOk() && Repr == old(Repr) + {p} && fresh(p)
    ensures enemies[c, r].path == p && p.traveler == enemies[c, r] && p.maneuver == SwoopOut(c, r)
    ensures p.start == enemies[c, r].pos && p.destination == Point(fighter.pos.x, fighter.pos.y + 100) && p.position == 0.0
    ensures p.influence == Point(rng.draws(old(rng.next)) % width, rng.draws(old(rng.next) + 1) % (height - 100))
    ensures rng.next == old(rng.next) + 2
    ensures forall x, y :: 0 <= x < enemyCols && 0 <= y < enemyRows && (x != c || y != r) ==>
              enemies[x, y].path == old(enemies[x, y].path)
  {
    assert CellOk(c, r);
    var e: Actor := enemies[c, r];
    var target := Point(fighter.pos.x, fighter.pos.y + 100);
    p := new TravelingPath(e, target, SwoopOut(c, r), rng);
    e.SetPath(p);
    Repr := Repr + {p};
    forall x, y | 0 <= x < enemyCols && 0 <= y < enemyRows
      ensures CellOk(x, y) && ((x, y) != (c, r) ==> enemies[x, y].path == old(enemies[x, y].path))
    {
      assert old(CellOk(x, y));
    }
  }

  /**
   * The cell `dispatchEnemy` settles on: the first pick (a column draw, then
   * a row draw) when its enemy is alive; otherwise, when some enemy lives,
   * one of the live cells its redraws can reach. `found` is false exactly
   * when no enemy is alive, the case in which the source starts a new level.
   */
  method PickCell(rng: Random) returns (found: bool, c: int, r: int)
    requires GridShape() && enemyCols >= 1 && enemyRows >= 1
    modifies rng`next
    ensures found <==> AnyAlive()
    ensures found ==> 0 <= c < enemyCols && 0 <= r < enemyRows && enemies[c, r].alive
    ensures rng.next == old(rng.next) + 2
    ensures var c0, r0 := rng.draws(old(rng.next)) % enemyCols, rng.draws(old(rng.next) + 1) % enemyRows;
            enemies[c0, r0].alive ==> found && c == c0 && r == r0
  {
    c := rng.NextInt(enemyCols);
    r := rng.NextInt(enemyRows);
    found := true;
    if !enemies[c, r].alive {
      var north := GetExtreme(North);
      ExtremeIsExtreme(North);
      if north == -1 {
        found := false;
        return;
      }
      c, r :| 0 <= c < enemyCols && 0 <= r < enemyRows && enemies[c, r].alive;
    }
  }

  /**
   * The dispatch branch of `handleTick` (`dispatchEnemy`): the picked live
   * enemy dives at the fighter, or, with no enemy left, the next level
   * starts. `newLevel` says which happened; (col, row) is the cell sent out.
   */
  method DispatchEnemy(rng: Random) returns (ghost newLevel: bool, ghost col: int, ghost row: int)
    requires Valid()
    modifies this`level, this`shots, this`collLibrary, this`enemyRows, this`maximumMovingEnemies, this`enemyDispatchDelay,
             this`enemyFireDelay, this`score, this`playerLives, this`enemies, this`enemyCols, this`Repr,
             this`enemyCorner, this`lifeCounter, this`deadPlayerTimeout, this`responses, rng`next, speed`travelDistance,
             Repr - {this, speed}
    ensures Valid() && old(Repr) <= Repr && fresh(Repr - old(Repr))
    ensures newLevel <==> !old(AnyAlive())
    ensures newLevel ==>
              level == old(level) + 1 && LevelTunables(level) && FormationAtRest() && shots == [] &&
              score >= old(score) + 30 * (level - 1) && playerLives == old(playerLives) + (if level % 4 == 0 then 1 else 0)
    ensures !newLevel ==>
              level == old(level) && playerLives == old(playerLives) && fighter.alive == old(fighter.alive) &&
              enemies == old(enemies) && 0 <= col < enemies.Length0 && 0 <= row < enemies.Length1 &&
              old(enemies[col, row].alive) && rng.next == old(rng.next) + 4 &&
              fresh(enemies[col, row].path) && enemies[col, row].path.maneuver == SwoopOut(col, row) &&
              enemies[col, row].path.destination == Point(old(fighter.pos.x), old(fighter.pos.y) + 100) &&
              enemies[col, row].path.position == 0.0
    ensures var c0, r0 := rng.draws(old(rng.next)) % old(enemyCols), rng.draws(old(rng.next) + 1) % old(enemyRows);
            old(enemies[c0, r0].alive) ==> !newLevel && col == c0 && row == r0
    ensures score >= old(score)
  {
    var found, c, r := PickCell(rng);
    newLevel := !found;
    col, row := c, r;
    if !found {
      NextLevel(rng);
    } else {
      Dispatch(c, r, rng);
    }
  }

  /** `level++` and `setLevelParams(level)`. */
  method NextLevel(rng: Random)
    requires Valid()
    modifies this`level, this`shots, this`collLibrary, this`enemyRows, this`maximumMovingEnemies, this`enemyDispatchDelay,
             this`enemyFireDelay, this`score, this`playerLives, this`enemies, this`enemyCols, this`Repr,
             this`enemyCorner, this`lifeCounter, this`deadPlayerTimeout, this`responses, rng`next, speed`travelDistance,
             Repr - {this, speed}
    ensures Valid() && old(Repr) <= Repr && fresh(Repr - old(Repr))
    ensures level == old(level) + 1 && LevelTunables(level) && FormationAtRest() && shots == []
    ensures playerLives == old(playerLives) + (if level % 4 == 0 then 1 else 0)
    ensures score >= old(score) + 30 * (level - 1)
    ensures fighter.pos == old(fighter.pos)
  {
    level := level + 1;
    SetLevelParams(level, rng);
  }

  /** The live enemy of cell (c, r) dives; the invariant is kept. */
  method Dispatch(c: int, r: int, rng: Random)
    requires Consistent() && 0 <= c < enemyCols && 0 <= r < enemyRows
    modifies this`Repr, rng`next, enemies[c, r]`path
    ensures Consistent() && old(Repr) <= Repr && fresh(Repr - old(Repr)) && rng.next == old(rng.next) + 2
    ensures fresh(enemies[c, r].path) && enemies[c, r].path.maneuver == SwoopOut(c, r) &&
            enemies[c, r].path.destination == Point(fighter.pos.x, fighter.pos.y + 100) && enemies[c, r].path.position == 0.0
  {
    label Before:
    var p := SendOut(c, r, rng);
    RegistryKept@Before();
  }

  // ---------------------------------------------------------------------
  // The tick

  /** The tick's moves: the formation on even ticks, then every shot. The fighter stays where it is. */
  method Advance(tick: int, rng: Random) returns (ghost flipped: bool, ghost gap: int, ghost kept: seq<bool>)
    requires Valid()
    modifies this`clusterDir, this`enemyCorner, this`score, this`deadPlayerTimeout, this`responses, this`Repr,
             this`shots, this`collLibrary, rng`next, Actors()
    ensures Valid() && old(Repr) <= Repr && fresh(Repr - old(Repr))
    ensures EveryNth(tick, 2) ==> ClusterMoved(old(clusterDir), old(enemyCorner), flipped, gap)
    ensures !EveryNth(tick, 2) ==> enemyCorner == old(enemyCorner) && clusterDir == old(clusterDir)
    ensures |kept| == |old(shots)|
    ensures forall j :: 0 <= j < |old(shots)| ==>
              var s := old(shots)[j];
              s.pos == Point(old(s.pos.x) + s.momentum.x, old(s.pos.y) + s.momentum.y) && kept[j] == InField(s.pos)
    ensures shots == Select(old(shots), kept)
    ensures forall s :: s in shots ==> InField(s.pos)
    ensures collLibrary == RemoveEach(old(collLibrary), Select(old(shots), Negate(kept)))
    ensures fighter.pos == old(fighter.pos) && fighter.size == old(fighter.size)
    ensures !old(fighter.alive) ==> !fighter.alive
    ensures score >= old(score)
    ensures forall a :: a in old(collLibrary) && !old(a.alive) ==> !a.alive
  {
    flipped, gap := FormationStep(tick, rng);
    kept := ShotsStep();
  }

  /**
   * The tick's shooting: the fighter fires and steers, then an enemy may
   * fire. The enemies' rule is tested between the two, where `armed` is the
   * fighter's alive flag and `anyLeft` tells whether some enemy lives.
   */
  method Volley(tick: int, space: bool, right: bool, left: bool, rng: Random)
    returns (ghost fighterShot: Actor?, ghost enemyShot: Actor?, ghost col: int, ghost row: int,
             ghost armed: bool, ghost anyLeft: bool)
    requires Valid()
    modifies this`shots, this`collLibrary, this`Repr, this`lastFighterShot, rng`next, fighter`pos, fighter`xVals, fighter`yVals
    modifies this`score, this`deadPlayerTimeout, this`responses, (set a | a in collLibrary :: a)`alive
    ensures Valid() && old(Repr) <= Repr && fresh(Repr - old(Repr))
    ensures shots == old(shots) + (if fighterShot == null then [] else [fighterShot]) +
                     (if enemyShot == null then [] else [enemyShot])
    ensures collLibrary == old(collLibrary) + (if fighterShot == null then [] else [fighterShot]) +
                           (if enemyShot == null then [] else [enemyShot])
    ensures lastFighterShot == (if space && tick - old(lastFighterShot) > 16 then tick else old(lastFighterShot))
    ensures fighterShot != null ==>
              space && tick - old(lastFighterShot) > 16 && old(fighter.alive) && fresh(fighterShot) &&
              FighterShot(fighterShot, old(fighter.pos), fighter.size.width)
    ensures space && tick - old(lastFighterShot) > 16 && old(fighter.alive) ==> fighterShot != null
    ensures !old(fighter.alive) ==> fighter.pos == old(fighter.pos) && !fighter.alive
    ensures fighter.alive ==> fighter.pos == Steered(old(fighter.pos), right, left, fighter.size.width)
    ensures enemyShot != null ==>
              EveryNth(tick, enemyFireDelay) && old(fighter.alive) && fresh(enemyShot) &&
              0 <= col < enemyCols && 0 <= row < enemyRows && EnemyShot(enemyShot, enemies[col, row].pos)
    ensures enemyShot != null <==> EveryNth(tick, enemyFireDelay) && armed && anyLeft
    ensures (armed ==> old(fighter.alive)) && (fighter.alive ==> armed)
    ensures (anyLeft ==> old(AnyAlive())) && (AnyAlive() ==> anyLeft)
    ensures score >= old(score)
    ensures forall a :: a in old(collLibrary) && !old(a.alive) ==> !a.alive
  {
    assert fighter !in shots && this !in Repr - {this};
    fighterShot := FighterActs(tick, space, right, left);
    LiveCellsWereAlive();
    armed, anyLeft := fighter.alive, AnyAlive();
    enemyShot, col, row := EnemyFires(tick, rng);
  }

  /** The fighter fires if asked and allowed, then steers. */
  method FighterActs(tick: int, space: bool, right: bool, left: bool) returns (ghost shot: Actor?)
    requires Valid()
    modifies this`shots, this`collLibrary, this`Repr, this`lastFighterShot, fighter`pos, fighter`xVals, fighter`yVals
    modifies this`score, this`deadPlayerTimeout, this`responses, (set a | a in collLibrary :: a)`alive
    ensures Valid() && old(Repr) <= Repr && fresh(Repr - old(Repr))
    ensures lastFighterShot == (if space && tick - old(lastFighterShot) > 16 then tick else old(lastFighterShot))
    ensures shots == old(shots) + (if shot == null then [] else [shot])
    ensures collLibrary == old(collLibrary) + (if shot == null then [] else [shot])
    ensures shot != null ==>
              space && tick - old(lastFighterShot) > 16 && old(fighter.alive) && fresh(shot) && FighterShot(shot, old(fighter.pos), fighter.size.width)
    ensures space && tick - old(lastFighterShot) > 16 && old(fighter.alive) ==> shot != null
    ensures !old(fighter.alive) ==> fighter.pos == old(fighter.pos) && !fighter.alive
    ensures fighter.alive ==> fighter.pos == Steered(old(fighter.pos), right, left, fighter.size.width)
    ensures score >= old(score)
    ensures forall a :: a in old(collLibrary) && !old(a.alive) ==> !a.alive
  {
    shot := FighterFires(tick, space);
    FighterSteers(right, left);
  }

  /** The formation moves on even ticks only; the fighter and the shots stay where they are. */
  method FormationStep(tick: int, rng: Random) returns (ghost flipped: bool, ghost gap: int)
    requires Valid()
    modifies this`clusterDir, this`enemyCorner, this`score, this`deadPlayerTimeout, this`responses, this`Repr,
             rng`next, Actors()
    ensures Valid() && old(Repr) <= Repr && fresh(Repr - old(Repr))
    ensures EveryNth(tick, 2) ==> ClusterMoved(old(clusterDir), old(enemyCorner), flipped, gap)
    ensures !EveryNth(tick, 2) ==>
              enemyCorner == old(enemyCorner) && clusterDir == old(clusterDir) && rng.next == old(rng.next) &&
              score == old(score)
    ensures fighter.pos == old(fighter.pos) && fighter.size == old(fighter.size)
    ensures forall j :: 0 <= j < |shots| ==> shots[j].pos == old(shots[j].pos)
    ensures !old(fighter.alive) ==> !fighter.alive
    ensures score >= old(score)
    ensures forall a :: a in old(collLibrary) && !old(a.alive) ==> !a.alive
  {
    flipped, gap := false, 0;
    if EveryNth(tick, 2) {
      flipped, gap := MoveCluster(rng);
    }
  }

  /** Every shot moves; those leaving the field are dropped. The fighter stays where it is. */
  method ShotsStep() returns (ghost kept: seq<bool>)
    requires Valid()
    modifies this`shots, this`collLibrary
    modifies (set s | s in shots :: s)`pos, (set s | s in shots :: s)`xVals, (set s | s in shots :: s)`yVals
    modifies this`score, this`deadPlayerTimeout, this`responses, (set a | a in collLibrary :: a)`alive
    ensures Valid()
    ensures |kept| == |old(shots)|
    ensures forall j :: 0 <= j < |old(shots)| ==>
              var s := old(shots)[j];
              s.pos == Point(old(s.pos.x) + s.momentum.x, old(s.pos.y) + s.momentum.y) && kept[j] == InField(s.pos)
    ensures shots == Select(old(shots), kept)
    ensures forall s :: s in shots ==> InField(s.pos)
    ensures collLibrary == RemoveEach(old(collLibrary), Select(old(shots), Negate(kept)))
    ensures fighter.pos == old(fighter.pos)
    ensures !old(fighter.alive) ==> !fighter.alive
    ensures score >= old(score)
    ensures forall a :: a in old(collLibrary) && !old(a.alive) ==> !a.alive
  {
    assert fighter !in shots;
    kept := MoveShots();
  }

  /**
   * The fighter fires if asked and its last shot is more than 16 ticks old;
   * the shot clock restarts even when the fighter is dead and nothing is fired.
   */
  method FighterFires(tick: int, space: bool) returns (ghost shot: Actor?)
    requires Valid()
    modifies this`shots, this`collLibrary, this`Repr, this`lastFighterShot
    modifies this`score, this`deadPlayerTimeout, this`responses, (set a | a in collLibrary :: a)`alive
    ensures Valid() && old(Repr) <= Repr && fresh(Repr - old(Repr))
    ensures lastFighterShot == (if space && tick - old(lastFighterShot) > 16 then tick else old(lastFighterShot))
    ensures shot != null <==> space && tick - old(lastFighterShot) > 16 && old(fighter.alive)
    ensures shot == null ==> shots == old(shots) && collLibrary == old(collLibrary) && Repr == old(Repr)
    ensures shot != null ==>
              fresh(shot) && shots == old(shots) + [shot] && collLibrary == old(collLibrary) + [shot] && FighterShot(shot, old(fighter.pos), fighter.size.width)
    ensures !old(fighter.alive) ==> !fighter.alive
    ensures score >= old(score)
    ensures forall a :: a in old(collLibrary) && !old(a.alive) ==> !a.alive
  {
    shot := null;
    if space && tick - lastFighterShot > 16 {
      lastFighterShot := tick;
      shot := FireFighterWeapon();
    }
  }

  /** The fighter steers west if only left is held, east if only right is held. */
  method FighterSteers(right: bool, left: bool)
    requires Valid()
    modifies fighter`pos, fighter`xVals, fighter`yVals
    modifies this`score, this`deadPlayerTimeout, this`responses, (set a | a in collLibrary :: a)`alive
    ensures Valid()
    ensures fighter.pos == (if old(fighter.alive) then Steered(old(fighter.pos), right, left, fighter.size.width) else old(fighter.pos))
    ensures !old(fighter.alive) ==> !fighter.alive
    ensures score >= old(score)
    ensures forall a :: a in collLibrary && !old(a.alive) ==> !a.alive
  {
    if left && !right {
      MoveFighter(West);
    } else if right && !left {
      MoveFighter(East);
    }
  }

  /**
   * On every `enemyFireDelay`-th tick, while the fighter is alive, a random
   * enemy fires, provided one is alive.
   */
  method EnemyFires(tick: int, rng: Random) returns (ghost shot: Actor?, ghost col: int, ghost row: int)
    requires Valid()
    modifies this`shots, this`collLibrary, this`Repr, rng`next
    modifies this`score, this`deadPlayerTimeout, this`responses, (set a | a in collLibrary :: a)`alive
    ensures Valid() && old(Repr) <= Repr && fresh(Repr - old(Repr))
    ensures shot != null <==> EveryNth(tick, enemyFireDelay) && old(fighter.alive) && old(AnyAlive())
    ensures shots == old(shots) + (if shot == null then [] else [shot])
    ensures collLibrary == old(collLibrary) + (if shot == null then [] else [shot])
    ensures shot == null ==> Repr == old(Repr) && rng.next == old(rng.next)
    ensures shot != null ==>
              fresh(shot) && rng.next == old(rng.next) + 1 &&
              0 <= col < enemyCols && 0 <= row < enemyRows &&
              (var drawn := rng.draws(old(rng.next)) % enemyCols; old(IsShooter(drawn, col, row))) &&
              EnemyShot(shot, enemies[col, row].pos)
    ensures !old(fighter.alive) ==> !fighter.alive
    ensures AnyAlive() ==> old(AnyAlive())
    ensures fighter.pos == old(fighter.pos) && fighter.size == old(fighter.size) && lastFighterShot == old(lastFighterShot)
    ensures score >= old(score)
    ensures forall a :: a in old(collLibrary) && !old(a.alive) ==> !a.alive
  {
    shot, col, row := null, -1, -1;
    if EveryNth(tick, enemyFireDelay) && fighter.alive {
      col, row, shot := FireEnemyWeapon(rng);
    }
    LiveCellsWereAlive();
  }

  /** While alive flags only fall, a live enemy now was a live enemy before. */
  twostate lemma LiveCellsWereAlive()
    requires old(GridShape()) && old(CellsRegistered())
    requires unchanged(this`enemies, this`enemyCols, this`enemyRows) && unchanged(old(enemies))
    requires forall a :: a in old(collLibrary) && !old(a.alive) ==> !a.alive
    ensures GridShape() && (AnyAlive() ==> old(AnyAlive()))
  {
    if AnyAlive() {
      var c, r :| 0 <= c < enemyCols && 0 <= r < enemyRows && enemies[c, r].alive;
      assert enemies[c, r] in old(collLibrary);
    }
  }

  /**
   * The dispatch test of `handleTick`: on every `enemyDispatchDelay`-th tick,
   * and only while at most `maximumMovingEnemies` enemies have a path, an
   * enemy is dispatched (or the next level starts).
   */
  method MaybeDispatch(tick: int, rng: Random) returns (ghost dispatched: bool, ghost newLevel: bool)
    requires Valid()
    modifies this`level, this`shots, this`collLibrary, this`enemyRows, this`maximumMovingEnemies, this`enemyDispatchDelay,
             this`enemyFireDelay, this`score, this`playerLives, this`enemies, this`enemyCols, this`Repr,
             this`enemyCorner, this`lifeCounter, this`deadPlayerTimeout, this`responses, rng`next, speed`travelDistance,
             Repr - {this, speed}
    ensures Valid() && old(Repr) <= Repr && fresh(Repr - old(Repr))
    ensures dispatched <==> EveryNth(tick, old(enemyDispatchDelay)) && old(GridPaths(enemyCols)) <= old(maximumMovingEnemies)
    ensures newLevel <==> dispatched && !old(AnyAlive())
    ensures newLevel ==>
              level == old(level) + 1 && LevelTunables(level) && FormationAtRest() &&
              playerLives == old(playerLives) + (if level % 4 == 0 then 1 else 0)
    ensures !newLevel ==> level == old(level) && playerLives == old(playerLives) && fighter.alive == old(fighter.alive)
    ensures !dispatched ==> Repr == old(Repr) && rng.next == old(rng.next)
    ensures score >= old(score)
  {
    var count := GetEnemyPathCount();
    newLevel := false;
    dispatched := EveryNth(tick, enemyDispatchDelay) && count <= maximumMovingEnemies;
    if EveryNth(tick, enemyDispatchDelay) && count <= maximumMovingEnemies {
      ghost var col, row;
      newLevel, col, row := DispatchEnemy(rng);
    }
  }

  /**
   * The second half of `handleTick`, the death timer: while it runs it
   * counts down; when it reaches 0 it stops (-1) and, if a life is left,
   * a life is consumed and the fighter revived; once stopped, enemies are
   * dispatched.
   */
  method TimerTick(tick: int, rng: Random) returns (ghost dispatched: bool, ghost newLevel: bool)
    requires Valid()
    modifies this`level, this`shots, this`collLibrary, this`enemyRows, this`maximumMovingEnemies, this`enemyDispatchDelay,
             this`enemyFireDelay, this`score, this`playerLives, this`enemies, this`enemyCols, this`Repr,
             this`enemyCorner, this`lifeCounter, this`deadPlayerTimeout, this`responses, rng`next, speed`travelDistance,
             Repr - {this, speed}
    ensures Valid() && old(Repr) <= Repr && fresh(Repr - old(Repr))
    ensures old(deadPlayerTimeout) > 0 ==>
              deadPlayerTimeout == old(deadPlayerTimeout) - 1 && playerLives == old(playerLives) && !dispatched
    ensures old(deadPlayerTimeout) == 0 ==>
              deadPlayerTimeout == -1 && !dispatched &&
              playerLives == (if old(playerLives) > 0 then old(playerLives) - 1 else old(playerLives)) &&
              (old(playerLives) > 0 ==> fighter.alive)
    ensures old(deadPlayerTimeout) < 0 ==>
              (dispatched <==> EveryNth(tick, old(enemyDispatchDelay)) && old(GridPaths(enemyCols)) <= old(maximumMovingEnemies))
    ensures newLevel <==> dispatched && !old(AnyAlive())
    ensures newLevel ==>
              level == old(level) + 1 && LevelTunables(level) && FormationAtRest() &&
              playerLives == old(playerLives) + (if level % 4 == 0 then 1 else 0)
    ensures !newLevel ==> level == old(level) && (IsRunning() <==> old(IsRunning()))
    ensures score >= old(score)
  {
    dispatched, newLevel := false, false;
    if deadPlayerTimeout > 0 {
      deadPlayerTimeout := deadPlayerTimeout - 1;
    } else if deadPlayerTimeout == 0 {
      deadPlayerTimeout := -1;
      if playerLives > 0 {
        var hidden := ConsumeLife();
      }
    } else {
      dispatched, newLevel := MaybeDispatch(tick, rng);
    }
  }

  /**
   * `handleTick`: one frame of the game. The fighter's shot clock follows
   * the fire button; the level advances by one at most, and only by
   * starting the next level's formation.
   */
  method HandleTick(tick: int, space: bool, right: bool, left: bool, rng: Random)
    requires Valid()
    modifies this`clusterDir, this`lastFighterShot, this`level, this`shots, this`collLibrary, this`enemyRows,
             this`maximumMovingEnemies, this`enemyDispatchDelay, this`enemyFireDelay, this`score, this`playerLives,
             this`enemies, this`enemyCols, this`Repr, this`enemyCorner, this`lifeCounter, this`deadPlayerTimeout,
             this`responses, rng`next, speed`travelDistance, Repr - {this, speed}
    ensures Valid() && old(Repr) <= Repr && fresh(Repr - old(Repr))
    ensures lastFighterShot == (if space && tick - old(lastFighterShot) > 16 then tick else old(lastFighterShot))
    ensures level == old(level) || (level == old(level) + 1 && LevelTunables(level) && FormationAtRest())
    ensures score >= old(score)
  {
    Motion(tick, space, right, left, rng);
    var dispatched, newLevel := TimerTick(tick, rng);
  }

  /** The part of `handleTick` before the death timer: `Advance`, then `Volley`. */
  method Motion(tick: int, space: bool, right: bool, left: bool, rng: Random)
    requires Valid()
    modifies this`clusterDir, this`enemyCorner, this`score, this`deadPlayerTimeout, this`responses, this`Repr,
             this`shots, this`collLibrary, this`lastFighterShot, rng`next, Actors()
    ensures Valid() && old(Repr) <= Repr && fresh(Repr - old(Repr))
    ensures lastFighterShot == (if space && tick - old(lastFighterShot) > 16 then tick else old(lastFighterShot))
    ensures score >= old(score)
  {
    assert this !in Actors();
    ghost var flipped, gap, kept := Advance(tick, rng);
    ghost var fighterShot, enemyShot, col, row, armed, anyLeft := Volley(tick, space, right, left, rng);
  }

  /**
   * The score read-out: a new actor placed at (5, 16), scanned for
   * collisions there, then made unable to collide. Its constructor has
   * already registered it, so it is registered once.
   */
  method AddScoreDisplay() returns (d: Actor)
    requires Consistent()
    modifies this`collLibrary, this`Repr
    modifies this`score, this`deadPlayerTimeout, this`responses, (set a | a in collLibrary :: a)`alive
    ensures Consistent() && fresh(d) && Repr == old(Repr) + {d}
    ensures collLibrary == old(collLibrary) + [d]
    ensures d.kind == ScoreDisplayKind && d.pos == Point(5, 16) && !d.canCollide
    ensures score >= old(score)
  {
    d := NewScoreDisplay();
    label Registered:
    var hits := d.SetLocation(5, 16);
    d.SetCanCollide(false);
    ConsistentKept@Registered();
  }

  /** The score read-out's creation, which registers it. */
  method NewScoreDisplay() returns (d: Actor)
    requires Consistent()
    modifies this`collLibrary, this`Repr
    ensures Consistent() && fresh(d) && Repr == old(Repr) + {d}
    ensures collLibrary == old(collLibrary) + [d]
    ensures d.kind == ScoreDisplayKind && d.parent == this && d.alive && d.canCollide
  {
    d := new Actor.ScoreDisplay(this);
    Repr := Repr + {d};
    DistinctSnoc(old(collLibrary), d);
  }

  /**
   * The source's own last step of the constructor: after the steps of
   * `AddScoreDisplay` it adds the read-out to the registry a second time,
   * so the registry holds it twice and is no longer free of repeats.
   */
  method AddScoreDisplayAsWritten() returns (d: Actor)
    requires Consistent()
    modifies this`collLibrary, this`Repr
    modifies this`score, this`deadPlayerTimeout, this`responses, (set a | a in collLibrary :: a)`alive
    ensures fresh(d) && Repr == old(Repr) + {d}
    ensures collLibrary == old(collLibrary) + [d, d] && !Distinct(collLibrary)
    ensures d.kind == ScoreDisplayKind && d.pos == Point(5, 16) && !d.canCollide
  {
    d := AddScoreDisplay();
    collLibrary := collLibrary + [d];
    assert collLibrary[|collLibrary| - 2] == collLibrary[|collLibrary| - 1];
  }

  /**
   * `new GalagaGame(width, height)`: the fighter, centred horizontally just
   * above the bottom margin; the first level (`setLevelParams(1)`); then
   * the score read-out. Before the first level there is no grid and no life
   * counter; the model starts from empty arrays of the same shape. The
   * level must leave room for one column of enemies, and the paths' random
   * control points need a height above 100.
   */
  constructor (width: int, height: int, overlapTest: (seq<int>, seq<int>, seq<int>, seq<int>) -> bool,
               enemyVertex: (int, int) -> Point, rng: Random)
    requires width >= WindowMargin * 2 + SlotPitch && height > 100
    modifies rng`next
    ensures this.width == width && this.height == height
    ensures Valid() && level == 1 && clusterDir == East && lastFighterShot == 0 && shots == []
    ensures playerLives == DefaultPlayerLives && lifeCounter.Length == DefaultPlayerLives
    ensures LevelTunables(1) && FormationAtRest() && score >= 0
    ensures collLibrary[|collLibrary| - 1].kind == ScoreDisplayKind
    ensures fighter.pos == Point(JavaDiv(width, 2) - JavaDiv(DefaultEnemySize, 2), height - WindowMargin - DefaultEnemySize)
  {
    this.width := width;
    this.height := height;
    this.overlapTest := overlapTest;
    this.enemyVertex := enemyVertex;
    speed := new TravelSpeed();
    enemyRows := 6;
    enemyCols := 0;
    playerLives := DefaultPlayerLives;
    deadPlayerTimeout := -1;
    lastFighterShot := 0;
    maximumMovingEnemies := 2;
    enemyDispatchDelay := 40;
    enemyFireDelay := 40;
    clusterDir := East;
    enemies := new Actor?[0, 6];
    enemyCorner := Point(0, 0);
    fighter := null;
    lifeCounter := new Actor?[0];
    collLibrary := [];
    shots := [];
    level := 1;
    score := 0;
    responses := [];
    new;
    Repr := {this, speed, enemies, lifeCounter};
    Start(rng);
  }

  /** The game before its first level: the fields' initial values, no actor, no grid and no life counter. */
  ghost predicate Initial()
    reads this`Repr, this`collLibrary, this`shots, this`fighter, this`enemies, this`enemyCols, this`enemyRows,
          this`lifeCounter, this`playerLives, this`level, this`clusterDir, this`lastFighterShot, this`score,
          this`maximumMovingEnemies, this`enemyDispatchDelay, this`enemyFireDelay
  {
    Repr == {this, speed, enemies, lifeCounter} &&
    collLibrary == [] && shots == [] && fighter == null &&
    enemies.Length0 == 0 == enemyCols && enemies.Length1 == enemyRows == 6 && lifeCounter.Length == 0 &&
    width >= WindowMargin * 2 + SlotPitch && height > 100 && playerLives == DefaultPlayerLives &&
    level == 1 && clusterDir == East && lastFighterShot == 0 && score == 0 &&
    maximumMovingEnemies == 2 && enemyDispatchDelay == 40 && enemyFireDelay == 40
  }

  /**
   * The constructor's steps after the fields' initial values: the fighter,
   * the first level (`setLevelParams(1)`), then the score read-out.
   */
  method Start(rng: Random)
    requires Initial() && rng !in Repr
    modifies Repr, rng`next
    ensures Valid() && level == 1 && clusterDir == East && lastFighterShot == 0 && shots == []
    ensures playerLives == DefaultPlayerLives && lifeCounter.Length == DefaultPlayerLives
    ensures LevelTunables(1) && FormationAtRest() && score >= 0
    ensures collLibrary[|collLibrary| - 1].kind == ScoreDisplayKind
    ensures fighter.pos == Point(JavaDiv(width, 2) - JavaDiv(DefaultEnemySize, 2), height - WindowMargin - DefaultEnemySize)
  {
    FirstLevel(rng);
    var d := AddScoreDisplay();
  }

  /** The fighter, then `setLevelParams(1)`. */
  method FirstLevel(rng: Random)
    requires Initial() && rng !in Repr
    modifies Repr, rng`next
    ensures Consistent() && fresh(Repr - old(Repr))
    ensures level == 1 && clusterDir == East && lastFighterShot == 0 && shots == []
    ensures playerLives == DefaultPlayerLives && lifeCounter.Length == DefaultPlayerLives
    ensures LevelTunables(1) && FormationAtRest() && score >= 0
    ensures fighter.pos == Point(JavaDiv(width, 2) - JavaDiv(DefaultEnemySize, 2), height - WindowMargin - DefaultEnemySize)
  {
    PlaceFighter();
    SetLevelParams(level, rng);
  }

  /**
   * The constructor's first step: the player's fighter, registered and
   * placed horizontally centred, just above the bottom margin. The game
   * has no other actor yet.
   */
  method PlaceFighter()
    requires Initial()
    modifies this`fighter, this`collLibrary, this`Repr, this`score, this`deadPlayerTimeout, this`responses
    ensures Consistent() && old(Repr) <= Repr && fresh(Repr - old(Repr))
    ensures fighter.pos == Point(JavaDiv(width, 2) - JavaDiv(DefaultEnemySize, 2), height - WindowMargin - DefaultEnemySize)
    ensures score >= old(score)
  {
    var f := NewFighter();
    label Registered:
    var hits := f.SetLocation(JavaDiv(width, 2) - JavaDiv(f.size.width, 2), height - WindowMargin - DefaultEnemySize);
    ConsistentKept@Registered();
  }

  /** The player's fighter: created, which registers it, and made the game's fighter. */
  method NewFighter() returns (f: Actor)
    requires Initial()
    modifies this`fighter, this`collLibrary, this`Repr
    ensures Consistent() && fresh(f) && fighter == f && Repr == old(Repr) + {f}
    ensures f.size == Dimension(DefaultEnemySize, DefaultEnemySize)
  {
    f := new Actor.PlayerFighter(this, DefaultEnemySize, true, (-1, -1));
    fighter := f;
    Repr := Repr + {f};
    FighterOnlyConsistent();
  }

  /** With no grid, no life counter and no shot, registering just the fighter keeps the invariant. */
  lemma FighterOnlyConsistent()
    requires Layout() && FighterOk() && fighter in Repr && collLibrary == [fighter] && shots == []
    requires enemies.Length0 == 0 == enemyCols && enemies.Length1 == enemyRows && lifeCounter.Length == 0
    ensures Consistent()
  {
  }
}
