// Enemy: the opponents in the formation. Only the collision rule is modelled
// exactly; the outline is the 16-point circle approximation, whose sine and
// cosine samples are an input of the model (`GalagaGame.enemyVertex`).

/** The vertex offsets of an enemy whose half-size is `half`: 16 samples. */
function EnemyBaseOutline(half: int, enemyVertex: (int, int) -> Point): (r: (seq<int>, seq<int>))
  ensures |r.0| == 16 && |r.1| == 16
{
  (seq(16, i => enemyVertex(half, i).x), seq(16, i => enemyVertex(half, i).y))
}

/**
 * `Enemy.handleCollision` as a relation between the alive flags before and
 * after: a dead enemy ignores the hit; a projectile whose own `canCollide`
 * holds kills the enemy and is left alone; anything else kills both.
 */
ghost predicate EnemyResponse(wasAlive: bool, otherKind: Kind, otherShotCanCollide: bool, otherWasAlive: bool,
                              alive: bool, otherAlive: bool)
{
  if !wasAlive then !alive && otherAlive == otherWasAlive
  else if otherKind.ProjectileKind? then alive == !otherShotCanCollide && otherAlive == otherWasAlive
  else !alive && !otherAlive
}

/** `Enemy.handleCollision(other)` for the enemy `me`. */
method EnemyHandleCollision(me: Actor, other: Actor)
  requires me.kind.EnemyKind?
  modifies me`alive, other`alive
  ensures EnemyResponse(old(me.alive), other.kind, other.shotCanCollide, old(other.alive), me.alive, other.alive)
{
  if me.alive {
    if other.kind.ProjectileKind? {
      if other.shotCanCollide {
        me.alive := false;
      }
    } else {
      me.alive := false;
      other.alive := false;
    }
  }
}
