// PlayerFighter: the player's triangle ship, also used for the life markers.

/** The triangle's vertex offsets: apex at the top centre, base along the bottom. */
function FighterBaseOutline(size: Dimension): (seq<int>, seq<int>)
{
  ([JavaDiv(size.width, 2), size.width, 0], [0, size.height, size.height])
}

/** A fighter's polygon is the triangle (x + w/2, y), (x + w, y + h), (x, y + h). */
lemma FighterOutlineIsTriangle(kind: Kind, pos: Point, size: Dimension, enemyVertex: (int, int) -> Point)
  requires kind.FighterKind?
  ensures Outline(kind, pos, size, enemyVertex) ==
          ([pos.x + JavaDiv(size.width, 2), pos.x + size.width, pos.x], [pos.y, pos.y + size.height, pos.y + size.height])
{
  var o := Outline(kind, pos, size, enemyVertex);
  assert BaseOutline(kind, size, enemyVertex) == ([JavaDiv(size.width, 2), size.width, 0], [0, size.height, size.height]);
  assert |o.0| == 3 && o.0[0] == pos.x + JavaDiv(size.width, 2) && o.0[1] == pos.x + size.width && o.0[2] == pos.x;
  assert |o.1| == 3 && o.1[0] == pos.y && o.1[1] == pos.y + size.height && o.1[2] == pos.y + size.height;
  assert o.0 == [pos.x + JavaDiv(size.width, 2), pos.x + size.width, pos.x];
  assert o.1 == [pos.y, pos.y + size.height, pos.y + size.height];
}

/** For a non-negative size every vertex of the triangle lies in the actor's box. */
lemma FighterOutlineInBox(kind: Kind, pos: Point, size: Dimension, enemyVertex: (int, int) -> Point)
  requires kind.FighterKind? && size.width >= 0 && size.height >= 0
  ensures var o := Outline(kind, pos, size, enemyVertex);
          |o.0| == |o.1| == 3 &&
          forall i :: 0 <= i < 3 ==> pos.x <= o.0[i] <= pos.x + size.width && pos.y <= o.1[i] <= pos.y + size.height
{
  FighterOutlineIsTriangle(kind, pos, size, enemyVertex);
}

/**
 * `PlayerFighter.handleCollision`: no response, except that the game's own
 * fighter (its anonymous override) starts the death timeout.
 */
method FighterHandleCollision(me: Actor, other: Actor)
  requires me.kind.FighterKind?
  modifies me.parent`deadPlayerTimeout
  ensures me.parent.deadPlayerTimeout ==
          if me.kind.controlled then DefaultPlayerDiedTimeout else old(me.parent.deadPlayerTimeout)
{
  if me.kind.controlled {
    me.parent.deadPlayerTimeout := DefaultPlayerDiedTimeout;
  }
}
