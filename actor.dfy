// Actor: the base unit of everything visible and colliding. The Java class
// hierarchy (Enemy, Projectile, PlayerFighter and the game's anonymous
// subclasses) is one class here, with a `kind` tag in place of `instanceof`.

/**
 * Which concrete class an actor is.
 *  - FighterKind(controlled): a PlayerFighter; `controlled` is the game's own
 *    fighter, whose anonymous override starts the death timeout on a hit
 *    (the life markers are plain PlayerFighters).
 *  - ProjectileKind(playerShot): a Projectile; `playerShot` is the fighter's
 *    anonymous subclass that scores its hits.
 *  - ScoreDisplayKind: the anonymous score read-out actor.
 */
datatype Kind =
  | FighterKind(controlled: bool)
  | EnemyKind
  | ProjectileKind(playerShot: bool)
  | ScoreDisplayKind

/** The vertex offsets an actor of `kind` and `size` has before its position is added. */
function BaseOutline(kind: Kind, size: Dimension, enemyVertex: (int, int) -> Point): (r: (seq<int>, seq<int>))
  ensures |r.0| == |r.1|
  ensures kind.ProjectileKind? ==> |r.0| == 4
  ensures kind.FighterKind? ==> |r.0| == 3
  ensures kind.ScoreDisplayKind? ==> r == ([], [])
{
  match kind
  case FighterKind(_) => FighterBaseOutline(size)
  case EnemyKind => EnemyBaseOutline(JavaDiv(size.width, 2), enemyVertex)
  case ProjectileKind(_) => ProjectileBaseOutline()
  case ScoreDisplayKind => ([], [])
}

/** The polygon `generateRepresentation` builds: the base outline moved to `pos`. */
function Outline(kind: Kind, pos: Point, size: Dimension, enemyVertex: (int, int) -> Point): (seq<int>, seq<int>)
{
  var base := BaseOutline(kind, size, enemyVertex);
  (Offset(base.0, pos.x), Offset(base.1, pos.y))
}

/** Regenerating at a moved position gives the old polygon moved by the same distance. */
lemma OutlineTranslates(kind: Kind, pos: Point, dx: int, dy: int, size: Dimension, enemyVertex: (int, int) -> Point)
  ensures Outline(kind, Point(pos.x + dx, pos.y + dy), size, enemyVertex) ==
          (Offset(Outline(kind, pos, size, enemyVertex).0, dx), Offset(Outline(kind, pos, size, enemyVertex).1, dy))
{
  var base := BaseOutline(kind, size, enemyVertex);
  OffsetTwice(base.0, pos.x, dx);
  OffsetTwice(base.1, pos.y, dy);
}

/** The loop every `generateRepresentation` ends with: add the position to each vertex. */
method Translate(xs: array<int>, ys: array<int>, dx: int, dy: int)
  requires xs != ys && xs.Length == ys.Length
  modifies xs, ys
  ensures xs[..] == Offset(old(xs[..]), dx) && ys[..] == Offset(old(ys[..]), dy)
{
  for i := 0 to xs.Length
    invariant forall k :: 0 <= k < i ==> xs[k] == old(xs[k]) + dx && ys[k] == old(ys[k]) + dy
    invariant forall k :: i <= k < xs.Length ==> xs[k] == old(xs[k]) && ys[k] == old(ys[k])
  {
    xs[i] := xs[i] + dx;
    ys[i] := ys[i] + dy;
  }
}

/**
 * The responses one collision scan fires, given which registry entries it
 * hit: for every hit entry, in registry order, the mover's handler first and
 * the other's second.
 */
ghost function Exchanges(me: Actor, library: seq<Actor>, hits: seq<bool>): seq<(Actor, Actor)>
  requires |hits| <= |library|
{
  if hits == [] then []
  else
    var n := |hits| - 1;
    Exchanges(me, library, hits[..n]) + (if hits[n] then [(me, library[n]), (library[n], me)] else [])
}

class Actor {
  const parent: GalagaGame
  const kind: Kind
  /** Which grid cell, or which life-marker index, the game created this actor for. */
  ghost const slot: (int, int)
  var alive: bool
  var canCollide: bool
  var size: Dimension
  var pos: Point
  var path: TravelingPath?
  var xVals: array?<int>
  var yVals: array?<int>
  /** Projectile.momentumX / momentumY, fixed at construction ((0, 0) for the other actors). */
  const momentum: Point
  /**
   * Projectile's own `canCollide` field. It hides Actor's field of the same
   * name and nothing ever assigns it, so it stays true.
   */
  const shotCanCollide: bool := true

  /** `new Enemy(parent, size, location)`. */
  constructor Enemy(parent: GalagaGame, size: int, location: Point, ghost slot: (int, int))
    modifies parent`collLibrary
    ensures this.parent == parent && kind == EnemyKind && this.slot == slot
    ensures alive && canCollide && path == null
    ensures this.size == Dimension(size, size) && pos == location
    ensures fresh(xVals) && fresh(yVals) && xVals != yVals
    ensures (xVals[..], yVals[..]) == Outline(kind, pos, this.size, parent.enemyVertex)
    ensures parent.collLibrary == old(parent.collLibrary) + [this]
  {
    this.parent := parent;
    kind := EnemyKind;
    this.slot := slot;
    alive, canCollide := true, true;
    path, xVals, yVals := null, null, null;
    this.size := Dimension(size, size);
    pos := location;
    momentum := Point(0, 0);
    new;
    parent.collLibrary := parent.collLibrary + [this];
    GenerateRepresentation();
  }

  /**
   * `new Projectile(parent, x, y, modX, modY)`; `playerShot` selects the
   * fighter's scoring subclass. The projectile is placed (and may collide)
   * before its size is set.
   */
  constructor Projectile(parent: GalagaGame, x: int, y: int, modX: int, modY: int, playerShot: bool)
    requires parent.Owned()
    modifies parent`collLibrary, parent`score, parent`deadPlayerTimeout, parent`responses
    modifies set a | a in parent.collLibrary :: a`alive
    ensures this.parent == parent && kind == ProjectileKind(playerShot) && canCollide && path == null
    ensures pos == Point(x, y) && momentum == Point(modX, modY) && size == Dimension(2, 8)
    ensures fresh(xVals) && fresh(yVals) && xVals != yVals
    ensures xVals[..] == [x, x + 2, x + 2, x] && yVals[..] == [y, y, y + 8, y + 8]
    ensures parent.collLibrary == old(parent.collLibrary) + [this]
    ensures parent.score >= old(parent.score)
    ensures forall a :: a in old(parent.collLibrary) && !old(a.alive) ==> !a.alive
  {
    this.parent := parent;
    kind := ProjectileKind(playerShot);
    slot := (-1, -1);
    alive, canCollide := true, true;
    path, xVals, yVals := null, null, null;
    momentum := Point(modX, modY);
    new;
    parent.collLibrary := parent.collLibrary + [this];
    var hits := SetLocation(x, y);
    size := Dimension(2, 8);
    GenerateRepresentation();
    ProjectileOutlineIsRectangle(kind, pos, size, parent.enemyVertex);
  }

  /** `new PlayerFighter(parent, size)`: sized, registered, not yet rendered. */
  constructor PlayerFighter(parent: GalagaGame, size: int, controlled: bool, ghost slot: (int, int))
    modifies parent`collLibrary
    ensures this.parent == parent && kind == FighterKind(controlled) && this.slot == slot
    ensures alive && canCollide && path == null
    ensures this.size == Dimension(size, size)
    ensures xVals == null && yVals == null
    ensures parent.collLibrary == old(parent.collLibrary) + [this]
  {
    this.parent := parent;
    kind := FighterKind(controlled);
    this.slot := slot;
    alive, canCollide := true, true;
    path, xVals, yVals := null, null, null;
    this.size := Dimension(size, size);
    momentum := Point(0, 0);
    new;
    parent.collLibrary := parent.collLibrary + [this];
  }

  /** The game's anonymous score read-out actor, registered like any other. */
  constructor ScoreDisplay(parent: GalagaGame)
    modifies parent`collLibrary
    ensures this.parent == parent && kind == ScoreDisplayKind
    ensures alive && canCollide && path == null && xVals == null && yVals == null
    ensures parent.collLibrary == old(parent.collLibrary) + [this]
  {
    this.parent := parent;
    kind := ScoreDisplayKind;
    slot := (-1, -1);
    alive, canCollide := true, true;
    path, xVals, yVals := null, null, null;
    momentum := Point(0, 0);
    new;
    parent.collLibrary := parent.collLibrary + [this];
  }

  /** `dispose`: take this actor out of the registry. */
  method Dispose()
    modifies parent`collLibrary
    ensures parent.collLibrary == RemoveFirst(old(parent.collLibrary), this)
  {
    parent.collLibrary := RemoveFirst(parent.collLibrary, this);
  }

  method SetPath(p: TravelingPath?)
    modifies this`path
    ensures path == p
  {
    path := p;
  }

  method SetAlive(b: bool)
    modifies this`alive
    ensures alive == b
  {
    alive := b;
  }

  method SetCanCollide(b: bool)
    modifies this`canCollide
    ensures canCollide == b
  {
    canCollide := b;
  }

  /**
   * `doesOverlap(other.xVals, other.yVals)`: the separating-axis test, an
   * input of the model, guarded by the source's check for unrendered actors.
   */
  predicate Overlaps(other: Actor): (b: bool)
    reads this`xVals, this`yVals, other`xVals, other`yVals, xVals, yVals, other.xVals, other.yVals
    ensures xVals == null || other.xVals == null ==> !b
    ensures xVals != null && yVals != null && other.xVals != null && other.yVals != null ==>
              (b <==> parent.overlapTest(xVals[..], yVals[..], other.xVals[..], other.yVals[..]))
  {
    xVals != null && other.xVals != null && yVals != null && other.yVals != null &&
    parent.overlapTest(xVals[..], yVals[..], other.xVals[..], other.yVals[..])
  }

  /** The fixed filter a registry entry must pass before the overlap test. */
  predicate Eligible(other: Actor)
    reads other`alive, other`canCollide
  {
    other != this && other.alive && !(kind.EnemyKind? && other.kind.EnemyKind?) && other.canCollide
  }

  /** `generateRepresentation`, dispatched on the kind: fresh vertex arrays at the current position. */
  method GenerateRepresentation()
    modifies this`xVals, this`yVals
    ensures fresh(xVals) && fresh(yVals) && xVals != yVals
    ensures (xVals[..], yVals[..]) == Outline(kind, pos, size, parent.enemyVertex)
  {
    var base := BaseOutline(kind, size, parent.enemyVertex);
    xVals := new int[|base.0|](i requires 0 <= i < |base.0| => base.0[i]);
    yVals := new int[|base.1|](i requires 0 <= i < |base.1| => base.1[i]);
    assert xVals[..] == base.0 && yVals[..] == base.1;
    Translate(xVals, yVals, pos.x, pos.y);
  }

  /**
   * `setLocation(x, y)`: move, regenerate the polygon, then (if this actor
   * can collide and is alive) scan the registry in order and, for every entry
   * that passes the filter and overlaps, fire this actor's handler and then
   * the other's. `hits` are the registry indices that were dispatched.
   */
  method SetLocation(x: int, y: int) returns (ghost hits: seq<bool>)
    requires parent.Owned()
    modifies this`pos, this`xVals, this`yVals, this`alive
    modifies parent`score, parent`deadPlayerTimeout, parent`responses
    modifies set a | a in parent.collLibrary :: a`alive
    ensures pos == Point(x, y)
    ensures fresh(xVals) && fresh(yVals) && xVals != yVals
    ensures (xVals[..], yVals[..]) == Outline(kind, pos, size, parent.enemyVertex)
    ensures |hits| == |parent.collLibrary|
    ensures !old(canCollide && alive) ==> forall j :: 0 <= j < |hits| ==> !hits[j]
    ensures forall j :: 0 <= j < |hits| && hits[j] ==> Hit(parent.collLibrary[j], old(parent.collLibrary[j].alive))
    ensures old(canCollide && alive) ==>
              forall j :: 0 <= j < |hits| && !hits[j] && parent.collLibrary[j].alive ==> !Hit(parent.collLibrary[j], true)
    ensures parent.responses == old(parent.responses) + Exchanges(this, parent.collLibrary, hits)
    ensures parent.score >= old(parent.score)
    ensures !old(alive) ==> !alive
    ensures forall a :: a in parent.collLibrary && !old(a.alive) ==> !a.alive
  {
    pos := Point(x, y);
    GenerateRepresentation();
    if canCollide && alive {
      hits := ScanCollisions();
    } else {
      hits := seq(|parent.collLibrary|, j => false);
      NoExchanges(this, parent.collLibrary, hits);
    }
  }

  /** What a hit promises of the other actor: it passed the filter (given it was alive) and overlapped. */
  predicate Hit(other: Actor, wasAlive: bool)
    reads this`xVals, this`yVals, other`xVals, other`yVals, other`canCollide, xVals, yVals, other.xVals, other.yVals
  {
    other != this && wasAlive && other.canCollide && !(kind.EnemyKind? && other.kind.EnemyKind?) && Overlaps(other)
  }

  /**
   * The registry loop of `setLocation`. The filter is checked against each
   * entry's flags at the moment the loop reaches it; since handlers only ever
   * clear alive flags, an entry alive at the end was alive when reached.
   */
  method ScanCollisions() returns (ghost hits: seq<bool>)
    requires parent.Owned()
    modifies this`alive, parent`score, parent`deadPlayerTimeout, parent`responses
    modifies set a | a in parent.collLibrary :: a`alive
    ensures |hits| == |parent.collLibrary|
    ensures forall j :: 0 <= j < |hits| && hits[j] ==> old(Hit(parent.collLibrary[j], parent.collLibrary[j].alive))
    ensures forall j :: 0 <= j < |hits| && !hits[j] && parent.collLibrary[j].alive ==>
              !old(Hit(parent.collLibrary[j], parent.collLibrary[j].alive))
    ensures parent.responses == old(parent.responses) + Exchanges(this, parent.collLibrary, hits)
    ensures parent.score >= old(parent.score)
    ensures !old(alive) ==> !alive
    ensures forall a :: a in parent.collLibrary && !old(a.alive) ==> !a.alive
  {
    hits := [];
    var library := parent.collLibrary;
    ghost var wasHit := seq(|library|, j requires 0 <= j < |library| reads * => Hit(library[j], library[j].alive));
    for i := 0 to |library|
      invariant parent.collLibrary == library && |hits| == i
      invariant forall j :: 0 <= j < i && hits[j] ==> wasHit[j]
      invariant forall j :: 0 <= j < i && !hits[j] && library[j].alive ==> !wasHit[j]
      invariant parent.responses == old(parent.responses) + Exchanges(this, library, hits)
      invariant parent.score >= old(parent.score)
      invariant !old(alive) ==> !alive
      invariant forall j :: 0 <= j < |library| && !old(library[j].alive) ==> !library[j].alive
    {
      var other := library[i];
      ghost var prev := hits;
      assert other in parent.collLibrary;
      var hit := Visit(other);
      assert hit ==> wasHit[i];
      assert !hit && other.alive ==> !wasHit[i];
      hits := hits + [hit];
      assert hits[..i] == prev;
      AppendAssoc(old(parent.responses), Exchanges(this, library, prev),
                  if hit then [(this, other), (other, this)] else []);
    }
    forall a | a in parent.collLibrary && !old(a.alive) ensures !a.alive {
      var j :| 0 <= j < |library| && library[j] == a;
    }
  }

  /** One registry entry reached by the scan: the filter, the overlap test and, on a hit, the exchange. */
  method Visit(other: Actor) returns (hit: bool)
    requires other.parent == parent
    modifies this`alive, other`alive, parent`score, parent`deadPlayerTimeout, parent`responses
    ensures hit == old(Eligible(other) && Overlaps(other))
    ensures parent.responses == old(parent.responses) + (if hit then [(this, other), (other, this)] else [])
    ensures parent.score >= old(parent.score)
    ensures !old(alive) ==> !alive
    ensures !old(other.alive) ==> !other.alive
  {
    hit := Eligible(other) && Overlaps(other);
    if hit {
      Exchange(other);
    }
  }

  /** One detected overlap: this actor's handler, then the other's. */
  method Exchange(other: Actor)
    requires other.parent == parent
    modifies this`alive, other`alive, parent`score, parent`deadPlayerTimeout, parent`responses
    ensures parent.responses == old(parent.responses) + [(this, other), (other, this)]
    ensures parent.score >= old(parent.score)
    ensures !old(alive) ==> !alive
    ensures !old(other.alive) ==> !other.alive
  {
    HandleCollision(other);
    other.HandleCollision(this);
  }

  /** `handleCollision(other)`, dispatched on the kind; `responses` logs the call. */
  method HandleCollision(other: Actor)
    modifies this`alive, other`alive, parent`score, parent`deadPlayerTimeout, parent`responses
    ensures parent.responses == old(parent.responses) + [(this, other)]
    ensures kind.EnemyKind? ==> EnemyResponse(old(alive), other.kind, other.shotCanCollide, old(other.alive), alive, other.alive)
    ensures kind.ProjectileKind? ==>
              !alive && !other.alive && parent.score == old(parent.score) + ShotBonus(kind, other.kind)
    ensures kind.FighterKind? ==>
              alive == old(alive) && other.alive == old(other.alive) &&
              parent.deadPlayerTimeout == (if kind.controlled then DefaultPlayerDiedTimeout else old(parent.deadPlayerTimeout))
    ensures kind.ScoreDisplayKind? ==> alive == old(alive) && other.alive == old(other.alive)
    ensures !kind.ProjectileKind? ==> parent.score == old(parent.score)
    ensures !kind.FighterKind? ==> parent.deadPlayerTimeout == old(parent.deadPlayerTimeout)
    ensures parent.score >= old(parent.score)
    ensures !old(alive) ==> !alive
    ensures !old(other.alive) ==> !other.alive
  {
    parent.responses := parent.responses + [(this, other)];
    match kind
    case EnemyKind => EnemyHandleCollision(this, other);
    case ProjectileKind(_) => ProjectileHandleCollision(this, other);
    case FighterKind(_) => FighterHandleCollision(this, other);
    case ScoreDisplayKind =>
  }

  /** `Projectile.move`: one step by the momentum. */
  method Move() returns (ghost hits: seq<bool>)
    requires kind.ProjectileKind? && parent.Owned()
    modifies this`pos, this`xVals, this`yVals, this`alive
    modifies parent`score, parent`deadPlayerTimeout, parent`responses
    modifies set a | a in parent.collLibrary :: a`alive
    ensures pos == Point(old(pos.x) + momentum.x, old(pos.y) + momentum.y)
    ensures fresh(xVals) && fresh(yVals) && xVals != yVals
    ensures xVals[..] == [pos.x, pos.x + 2, pos.x + 2, pos.x] && yVals[..] == [pos.y, pos.y, pos.y + 8, pos.y + 8]
    ensures |hits| == |parent.collLibrary|
    ensures parent.responses == old(parent.responses) + Exchanges(this, parent.collLibrary, hits)
    ensures parent.score >= old(parent.score)
    ensures !old(alive) ==> !alive
    ensures forall a :: a in parent.collLibrary && !old(a.alive) ==> !a.alive
  {
    hits := SetLocation(pos.x + momentum.x, pos.y + momentum.y);
    ProjectileOutlineIsRectangle(kind, pos, size, parent.enemyVertex);
  }

  /**
   * `shift(dx, dy)` as written: `setLocation` regenerates the polygon at the
   * moved position and the loop then adds the distance a second time.
   */
  method ShiftAsWritten(dx: int, dy: int) returns (ghost hits: seq<bool>)
    requires parent.Owned()
    modifies this`pos, this`xVals, this`yVals, this`alive
    modifies parent`score, parent`deadPlayerTimeout, parent`responses
    modifies set a | a in parent.collLibrary :: a`alive
    ensures pos == Point(old(pos.x) + dx, old(pos.y) + dy)
    ensures fresh(xVals) && fresh(yVals)
    ensures (xVals[..], yVals[..]) == Outline(kind, Point(old(pos.x) + 2 * dx, old(pos.y) + 2 * dy), size, parent.enemyVertex)
    ensures |hits| == |parent.collLibrary|
    ensures parent.responses == old(parent.responses) + Exchanges(this, parent.collLibrary, hits)
  {
    hits := SetLocation(pos.x + dx, pos.y + dy);
    Translate(xVals, yVals, dx, dy);
    OutlineTranslates(kind, pos, dx, dy, size, parent.enemyVertex);
  }

  /**
   * `shift(dx, dy)` as evidently intended: the actor moves by the distance and
   * its polygon is the one it has at the new position.
   */
  method Shift(dx: int, dy: int) returns (ghost hits: seq<bool>)
    requires parent.Owned()
    modifies this`pos, this`xVals, this`yVals, this`alive
    modifies parent`score, parent`deadPlayerTimeout, parent`responses
    modifies set a | a in parent.collLibrary :: a`alive
    ensures pos == Point(old(pos.x) + dx, old(pos.y) + dy)
    ensures fresh(xVals) && fresh(yVals)
    ensures (xVals[..], yVals[..]) == Outline(kind, pos, size, parent.enemyVertex)
    ensures |hits| == |parent.collLibrary|
    ensures parent.responses == old(parent.responses) + Exchanges(this, parent.collLibrary, hits)
  {
    hits := SetLocation(pos.x + dx, pos.y + dy);
  }
}

/** A projectile at the origin shifted by (1, 0) ends up with x vertices 2, 4, 4, 2 instead of 1, 3, 3, 1. */
lemma ShiftAsWrittenCounterexample(size: Dimension, enemyVertex: (int, int) -> Point)
  ensures Outline(ProjectileKind(false), Point(1 + 1, 0), size, enemyVertex).0 == [2, 4, 4, 2]
  ensures Outline(ProjectileKind(false), Point(1, 0), size, enemyVertex).0 == [1, 3, 3, 1]
{
  ProjectileOutlineIsRectangle(ProjectileKind(false), Point(2, 0), size, enemyVertex);
  ProjectileOutlineIsRectangle(ProjectileKind(false), Point(1, 0), size, enemyVertex);
}

/** A scan that hit nothing fired nothing. */
lemma {:induction false} NoExchanges(me: Actor, library: seq<Actor>, hits: seq<bool>)
  requires |hits| <= |library| && forall j :: 0 <= j < |hits| ==> !hits[j]
  ensures Exchanges(me, library, hits) == []
{
  if hits != [] {
    NoExchanges(me, library, hits[..|hits| - 1]);
  }
}
