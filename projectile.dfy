// Projectile: a shot moving by a fixed momentum each tick. A hit kills both
// the shot and what it hit; the fighter's shots also score.

const ProjectileWidth := 2
const ProjectileHeight := 8

/** The four corner offsets of a projectile's rectangle. */
function ProjectileBaseOutline(): (seq<int>, seq<int>)
{
  ([0, ProjectileWidth, ProjectileWidth, 0], [0, 0, ProjectileHeight, ProjectileHeight])
}

/** A projectile's polygon is the 2 by 8 rectangle whose top-left corner is its position. */
lemma ProjectileOutlineIsRectangle(kind: Kind, pos: Point, size: Dimension, enemyVertex: (int, int) -> Point)
  requires kind.ProjectileKind?
  ensures Outline(kind, pos, size, enemyVertex) ==
          ([pos.x, pos.x + 2, pos.x + 2, pos.x], [pos.y, pos.y, pos.y + 8, pos.y + 8])
{
  var o := Outline(kind, pos, size, enemyVertex);
  assert BaseOutline(kind, size, enemyVertex) == ([0, 2, 2, 0], [0, 0, 8, 8]);
  assert |o.0| == 4 && o.0[0] == pos.x && o.0[1] == pos.x + 2 && o.0[2] == pos.x + 2 && o.0[3] == pos.x;
  assert |o.1| == 4 && o.1[0] == pos.y && o.1[1] == pos.y && o.1[2] == pos.y + 8 && o.1[3] == pos.y + 8;
  assert o.0 == [pos.x, pos.x + 2, pos.x + 2, pos.x];
  assert o.1 == [pos.y, pos.y, pos.y + 8, pos.y + 8];
}

/**
 * What the fighter's shot adds to the score when it hits `otherKind`: 20 for
 * an enemy, 10 for another projectile, nothing otherwise. Enemy shots never score.
 */
function ShotBonus(kind: Kind, otherKind: Kind): (bonus: int)
  ensures bonus == 20 <==> kind == ProjectileKind(true) && otherKind.EnemyKind?
  ensures bonus == 10 <==> kind == ProjectileKind(true) && otherKind.ProjectileKind?
  ensures bonus == 0 <==> kind != ProjectileKind(true) || otherKind.FighterKind? || otherKind.ScoreDisplayKind?
{
  if kind == ProjectileKind(true) then
    if otherKind.EnemyKind? then 20 else if otherKind.ProjectileKind? then 10 else 0
  else 0
}

/** `Projectile.handleCollision(other)` for the projectile `me`, with the fighter shot's scoring. */
method ProjectileHandleCollision(me: Actor, other: Actor)
  requires me.kind.ProjectileKind?
  modifies me`alive, other`alive, me.parent`score
  ensures !me.alive && !other.alive
  ensures me.parent.score == old(me.parent.score) + ShotBonus(me.kind, other.kind)
{
  other.alive := false;
  me.alive := false;
  if me.kind.playerShot {
    if other.kind.EnemyKind? {
      me.parent.score := me.parent.score + 20;
    } else if other.kind.ProjectileKind? {
      me.parent.score := me.parent.score + 10;
    }
  }
}
