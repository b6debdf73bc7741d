// Bounded arithmetic of the town map: the clamps that keep positions and
// exploration targets on the map, the choice of facing direction from a step,
// and the animation-frame cycle.
module Geometry {
  import opened Common

  const TILE_SIZE: real := 48.0
  const TOWN_WIDTH: real := 800.0
  const TOWN_HEIGHT: real := 600.0
  const EXPLORATION_RADIUS: real := 40.0
  /** The player's facing only changes when one axis dominates by this much. */
  const DIRECTION_THRESHOLD: real := 0.3

  datatype Direction = Up | Down | Left | Right

  /** Number of animation frames of a sprite sheet, per facing direction. */
  datatype SpriteFrames = SpriteFrames(up: nat, down: nat, left: nat, right: nat)
  {
    function Count(d: Direction): nat
    {
      match d
      case Up => up
      case Down => down
      case Left => left
      case Right => right
    }

    /** Every direction has the same, non-zero, number of frames (6 for every resident). */
    predicate Uniform()
    {
      up > 0 && down == up && left == up && right == up
    }
  }

  function Abs(v: real): real
  {
    if v < 0.0 then -v else v
  }

  function Min(a: real, b: real): real
  {
    if a < b then a else b
  }

  function Max(a: real, b: real): real
  {
    if a > b then a else b
  }

  /** `Math.max(lo, Math.min(hi, v))`: the value moved into [lo, hi]. */
  function Clamp(lo: real, hi: real, v: real): (r: real)
    requires lo <= hi
    ensures lo <= r <= hi
    ensures lo <= v <= hi ==> r == v
    ensures r != v ==> (v < lo && r == lo) || (v > hi && r == hi)
  {
    Max(lo, Min(hi, v))
  }

  /** Clamping never moves a value further from any point of the interval. */
  lemma ClampNonExpansive(lo: real, hi: real, v: real, c: real)
    requires lo <= c <= hi
    ensures Abs(Clamp(lo, hi, v) - c) <= Abs(v - c)
  {
  }

  /** Where a resident may stand: x in [0, 752], y in [0, 552]. */
  predicate OnMap(p: Point)
  {
    0.0 <= p.x <= TOWN_WIDTH - TILE_SIZE && 0.0 <= p.y <= TOWN_HEIGHT - TILE_SIZE
  }

  /** The clamp applied after every step of a resident (goal travel and exploration). */
  function ClampToMap(p: Point): (r: Point)
    ensures OnMap(r)
    ensures OnMap(p) ==> r == p
  {
    Point(Clamp(0.0, TOWN_WIDTH - TILE_SIZE, p.x), Clamp(0.0, TOWN_HEIGHT - TILE_SIZE, p.y))
  }

  /** Where the player may stand: half a tile from every edge, x in [24, 776], y in [24, 576]. */
  predicate OnPlayerMap(p: Point)
  {
    TILE_SIZE / 2.0 <= p.x <= TOWN_WIDTH - TILE_SIZE / 2.0
    && TILE_SIZE / 2.0 <= p.y <= TOWN_HEIGHT - TILE_SIZE / 2.0
  }

  /** The clamp applied after every step of the player. */
  function ClampToPlayerMap(p: Point): (r: Point)
    ensures OnPlayerMap(r)
    ensures OnPlayerMap(p) ==> r == p
  {
    Point(Clamp(TILE_SIZE / 2.0, TOWN_WIDTH - TILE_SIZE / 2.0, p.x),
          Clamp(TILE_SIZE / 2.0, TOWN_HEIGHT - TILE_SIZE / 2.0, p.y))
  }

  /** Where exploration targets lie: a full tile from every edge, x in [48, 752], y in [48, 552]. */
  predicate InExplorationBox(p: Point)
  {
    TILE_SIZE <= p.x <= TOWN_WIDTH - TILE_SIZE && TILE_SIZE <= p.y <= TOWN_HEIGHT - TILE_SIZE
  }

  /**
   * The exploration target around a base point. The random polar offset
   * `(cos(angle) * distance, sin(angle) * distance)` is an input; the target is
   * the offset base point, clamped into the exploration box.
   */
  function ExplorationTarget(base: Point, offset: Point): (r: Point)
    ensures InExplorationBox(r)
    ensures InExplorationBox(Point(base.x + offset.x, base.y + offset.y)) ==> r == Point(base.x + offset.x, base.y + offset.y)
  {
    Point(Clamp(TILE_SIZE, TOWN_WIDTH - TILE_SIZE, base.x + offset.x),
          Clamp(TILE_SIZE, TOWN_HEIGHT - TILE_SIZE, base.y + offset.y))
  }

  lemma SquareMonotone(a: real, b: real)
    requires Abs(a) <= Abs(b)
    ensures a * a <= b * b
  {
    assert a * a == Abs(a) * Abs(a);
    assert b * b == Abs(b) * Abs(b);
    assert Abs(a) * Abs(a) <= Abs(a) * Abs(b);
    assert Abs(a) * Abs(b) <= Abs(b) * Abs(b);
  }

  lemma SquaredLengthMonotone(ax: real, ay: real, vx: real, vy: real)
    requires Abs(ax) <= Abs(vx) && Abs(ay) <= Abs(vy)
    ensures SquaredLength(ax, ay) <= SquaredLength(vx, vy)
  {
    SquareMonotone(ax, vx);
    SquareMonotone(ay, vy);
  }

  /**
   * An offset drawn within the exploration radius around a base inside the
   * exploration box gives a target still within the radius of the base:
   * clamping only pulls the target towards the base. A base outside the box
   * is not covered: a resident starts working anywhere within the reach
   * threshold of its location, so near the edge of the map (around
   * (50, 50), say) its base can lie just outside the box, and there the clamp
   * can push the target slightly beyond the radius.
   */
  lemma ExplorationTargetWithinRadius(base: Point, offset: Point)
    requires InExplorationBox(base)
    requires SquaredLength(offset.x, offset.y) <= EXPLORATION_RADIUS * EXPLORATION_RADIUS
    ensures SquaredLength(ExplorationTarget(base, offset).x - base.x, ExplorationTarget(base, offset).y - base.y)
            <= EXPLORATION_RADIUS * EXPLORATION_RADIUS
  {
    var t := ExplorationTarget(base, offset);
    ClampNonExpansive(TILE_SIZE, TOWN_WIDTH - TILE_SIZE, base.x + offset.x, base.x);
    ClampNonExpansive(TILE_SIZE, TOWN_HEIGHT - TILE_SIZE, base.y + offset.y, base.y);
    SquaredLengthMonotone(t.x - base.x, t.y - base.y, offset.x, offset.y);
  }

  function HorizontalFacing(dx: real): Direction
  {
    if dx > 0.0 then Right else Left
  }

  function VerticalFacing(dy: real): Direction
  {
    if dy > 0.0 then Down else Up
  }

  /**
   * Facing of a resident after a step (dx, dy): horizontal only when the
   * horizontal component is strictly larger, so a diagonal step faces
   * vertically; a zero component on the chosen axis faces left or up.
   */
  function StepFacing(dx: real, dy: real): (d: Direction)
    ensures (d == Left || d == Right) <==> Abs(dx) > Abs(dy)
    ensures d == Right <==> Abs(dx) > Abs(dy) && dx > 0.0
    ensures d == Down <==> Abs(dx) <= Abs(dy) && dy > 0.0
  {
    if Abs(dx) > Abs(dy) then HorizontalFacing(dx) else VerticalFacing(dy)
  }

  /** A step whose components have equal magnitude always faces up or down. */
  lemma TiesFaceVertically(dx: real, dy: real)
    requires Abs(dx) == Abs(dy)
    ensures StepFacing(dx, dy) == Up || StepFacing(dx, dy) == Down
  {
  }

  /**
   * Facing of the player after a step: an axis wins only when it dominates the
   * other by more than the threshold; otherwise the current facing is kept.
   */
  function PlayerFacing(current: Direction, dx: real, dy: real): (d: Direction)
    ensures Abs(dx) > Abs(dy) + DIRECTION_THRESHOLD ==> d == HorizontalFacing(dx)
    ensures Abs(dy) > Abs(dx) + DIRECTION_THRESHOLD ==> d == VerticalFacing(dy)
    ensures Abs(Abs(dx) - Abs(dy)) <= DIRECTION_THRESHOLD ==> d == current
  {
    if Abs(dx) > Abs(dy) + DIRECTION_THRESHOLD then HorizontalFacing(dx)
    else if Abs(dy) > Abs(dx) + DIRECTION_THRESHOLD then VerticalFacing(dy)
    else current
  }

  /**
   * The animation frame after a tick: it advances cyclically over `count`
   * frames on the ticks selected for animation and stays put on the others.
   */
  function NextFrame(frame: nat, count: nat, advance: bool): (r: nat)
    requires count > 0
    ensures r < count || (!advance && r == frame)
    ensures !advance ==> r == frame
    ensures advance && frame + 1 < count ==> r == frame + 1
    ensures advance && frame + 1 == count ==> r == 0
  {
    if advance then (frame + 1) % count else frame
  }
}
