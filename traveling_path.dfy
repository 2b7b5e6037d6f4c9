// TravelingPath: a quadratic Bézier flight an enemy follows when it leaves
// the formation. The two anonymous subclasses the game creates (the swoop
// past the fighter and the swoop back into the formation) are the two
// variants of `Maneuver`.

/**
 * The static `TravelingPath.travelDistance`: one cell shared by every path,
 * reset by the game at each level.
 */
class TravelSpeed {
  var travelDistance: real

  constructor ()
    ensures travelDistance == 1.5
  {
    travelDistance := 1.5;
  }

  method SetTravelDistance(d: real)
    modifies this`travelDistance
    ensures travelDistance == d
  {
    travelDistance := d;
  }

  method GetTravelDistance() returns (d: real)
    ensures d == travelDistance
  {
    d := travelDistance;
  }
}

/**
 * Which of the game's anonymous paths this is, for the enemy at grid cell
 * (col, row): the dive past the fighter, or the return to its formation slot.
 */
datatype Maneuver = SwoopOut(col: int, row: int) | SwoopBack(col: int, row: int)

/** Where the enemy of cell (col, row) sits when the formation's corner is `corner`. */
function SlotOf(corner: Point, col: int, row: int): Point
{
  Point(col * SlotPitch + corner.x, row * SlotPitch + corner.y)
}

/** One coordinate of the quadratic Bézier curve through a, b, c at parameter t. */
function Bezier(a: int, b: int, c: int, t: real): (r: real)
  ensures t == 0.0 ==> r == a as real
  ensures t == 1.0 ==> r == c as real
{
  (1.0 - t) * (1.0 - t) * (a as real) + 2.0 * (1.0 - t) * t * (b as real) + t * t * (c as real)
}

/** The point `move` sends the traveler to: both coordinates floored. */
function FlooredBezier(p0: Point, p1: Point, p2: Point, t: real): (r: Point)
  ensures t == 0.0 ==> r == p0
  ensures t == 1.0 ==> r == p2
{
  Point(Bezier(p0.x, p1.x, p2.x, t).Floor, Bezier(p0.y, p1.y, p2.y, t).Floor)
}

class TravelingPath {
  const traveler: Actor
  const maneuver: Maneuver
  /** p[0], the follower's position when the path was made. */
  const start: Point
  /** p[1], the random control point. */
  const influence: Point
  /** p[2], the end point; the swoop back retargets it every step. */
  var destination: Point
  /** Progress in percent of the curve. */
  var position: real
  /** How many times `finished` has run. */
  ghost var finishedCalls: nat

  /**
   * `new TravelingPath(pathFollower, destination)`: the control point is two
   * draws, one in [0, width) and one in [0, height - 100).
   */
  constructor (pathFollower: Actor, destination: Point, maneuver: Maneuver, rng: Random)
    requires pathFollower.parent.width > 0 && pathFollower.parent.height > 100
    modifies rng`next
    ensures traveler == pathFollower && this.maneuver == maneuver
    ensures start == pathFollower.pos && this.destination == destination
    ensures position == 0.0 && finishedCalls == 0
    ensures 0 <= influence.x < pathFollower.parent.width && 0 <= influence.y < pathFollower.parent.height - 100
    ensures influence == Point(rng.draws(old(rng.next)) % pathFollower.parent.width,
                               rng.draws(old(rng.next) + 1) % (pathFollower.parent.height - 100))
    ensures rng.next == old(rng.next) + 2
  {
    traveler := pathFollower;
    this.maneuver := maneuver;
    var ix := rng.NextInt(pathFollower.parent.width);
    var iy := rng.NextInt(pathFollower.parent.height - 100);
    influence := Point(ix, iy);
    start := pathFollower.pos;
    this.destination := destination;
    position := 0.0;
    finishedCalls := 0;
  }

  /** `updateDestination`: only the end point changes. */
  method UpdateDestination(update: Point)
    modifies this`destination
    ensures destination == update
  {
    destination := update;
  }

  /**
   * `move`: advance by the shared travel distance, put the traveler on the
   * floored curve point, and call `finished` whenever progress exceeds 100
   * (on every later step too). The swoop back then retargets its end point
   * at the enemy's current formation slot. `landed` is the curve point.
   */
  method Move(rng: Random) returns (ghost landed: Point)
    requires traveler.parent.Owned()
    requires traveler.parent.width > 0 && traveler.parent.height > 100
    modifies this`position, this`destination, this`finishedCalls, rng`next
    modifies traveler`pos, traveler`xVals, traveler`yVals, traveler`alive, traveler`path
    modifies traveler.parent`score, traveler.parent`deadPlayerTimeout, traveler.parent`responses
    modifies set a | a in traveler.parent.collLibrary :: a`alive
    ensures position == old(position) + traveler.parent.speed.travelDistance
    ensures landed == FlooredBezier(start, influence, old(destination), position / 100.0)
    ensures finishedCalls == old(finishedCalls) + (if position > 100.0 then 1 else 0)
    ensures destination == (if maneuver.SwoopBack? then SlotOf(traveler.parent.enemyCorner, maneuver.col, maneuver.row)
                            else old(destination))
    ensures !(position > 100.0 && maneuver.SwoopOut?) ==> traveler.pos == landed
    ensures !(position > 100.0) ==> traveler.path == old(traveler.path)
    ensures position > 100.0 && maneuver.SwoopOut? ==>
              traveler.pos == Point(landed.x, -100) && fresh(traveler.path) &&
              traveler.path.traveler == traveler && traveler.path.start == traveler.pos &&
              traveler.path.maneuver == SwoopBack(maneuver.col, maneuver.row) &&
              traveler.path.destination == SlotOf(traveler.parent.enemyCorner, maneuver.col, maneuver.row) &&
              traveler.path.position == 0.0
    ensures position > 100.0 && maneuver.SwoopBack? ==>
              traveler.path == null && traveler.parent.score >= old(traveler.parent.score) + (if old(traveler.path) != null then 5 else 0)
    ensures traveler.parent.score >= old(traveler.parent.score)
    ensures !old(traveler.alive) ==> !traveler.alive
    ensures forall a :: a in traveler.parent.collLibrary && !old(a.alive) ==> !a.alive
  {
    position := position + traveler.parent.speed.travelDistance;
    var t := position / 100.0;
    var x := Bezier(start.x, influence.x, destination.x, t).Floor;
    var y := Bezier(start.y, influence.y, destination.y, t).Floor;
    landed := Point(x, y);
    var hits := traveler.SetLocation(x, y);
    if position > 100.0 {
      Finished(rng);
    }
    if maneuver.SwoopBack? {
      UpdateDestination(SlotOf(traveler.parent.enemyCorner, maneuver.col, maneuver.row));
    }
  }

  /**
   * `finished`. The swoop out restarts the enemy 100 pixels above the view
   * and gives it a new path back to its slot; the swoop back, if the enemy
   * still has a path, clears it and scores 5 for the survived pass.
   */
  method Finished(rng: Random)
    requires traveler.parent.Owned()
    requires traveler.parent.width > 0 && traveler.parent.height > 100
    modifies this`finishedCalls, rng`next
    modifies traveler`pos, traveler`xVals, traveler`yVals, traveler`alive, traveler`path
    modifies traveler.parent`score, traveler.parent`deadPlayerTimeout, traveler.parent`responses
    modifies set a | a in traveler.parent.collLibrary :: a`alive
    ensures finishedCalls == old(finishedCalls) + 1
    ensures maneuver.SwoopOut? ==>
              traveler.pos == Point(old(traveler.pos.x), -100) && fresh(traveler.path) &&
              traveler.path.traveler == traveler && traveler.path.start == traveler.pos &&
              traveler.path.maneuver == SwoopBack(maneuver.col, maneuver.row) &&
              traveler.path.destination == SlotOf(traveler.parent.enemyCorner, maneuver.col, maneuver.row) &&
              traveler.path.position == 0.0
    ensures maneuver.SwoopBack? ==>
              traveler.path == null && traveler.pos == old(traveler.pos) &&
              traveler.parent.score == old(traveler.parent.score) + (if old(traveler.path) != null then 5 else 0) &&
              traveler.alive == old(traveler.alive) && rng.next == old(rng.next)
    ensures traveler.parent.score >= old(traveler.parent.score)
    ensures !old(traveler.alive) ==> !traveler.alive
    ensures forall a :: a in traveler.parent.collLibrary && !old(a.alive) ==> !a.alive
  {
    finishedCalls := finishedCalls + 1;
    match maneuver
    case SwoopOut(col, row) =>
      var hits := traveler.SetLocation(traveler.pos.x, -100);
      var back := new TravelingPath(traveler, SlotOf(traveler.parent.enemyCorner, col, row), SwoopBack(col, row), rng);
      traveler.SetPath(back);
    case SwoopBack(_, _) =>
      if traveler.path != null {
        traveler.SetPath(null);
        traveler.parent.score := traveler.parent.score + 5;
      }
  }
}
