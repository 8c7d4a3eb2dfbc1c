/**
 * The player: a movable entity of speed 1 that starts on a cell and sees
 * the cells within its vision radius, which riddles enlarge up to a cap.
 */
module Players {
  import opened Numeric
  import opened Entities

  /** The largest vision radius the player can reach. */
  const MAX_VISION: real := 15.0
  /** The vision radius a player starts with unless told otherwise. */
  const DEFAULT_VISION: real := 3.0

  /** The vision radius after growing `radius` by `amount`: the sum, capped at MAX_VISION. */
  function GrownVision(radius: real, amount: real): (r: real)
    ensures r <= MAX_VISION
    ensures r == radius + amount || r == MAX_VISION
    ensures r == MAX_VISION <==> radius + amount >= MAX_VISION
  {
    if radius + amount > MAX_VISION then MAX_VISION else radius + amount
  }

  /** Growing a radius of at most the cap by a non-negative amount never shrinks it. */
  lemma GrownVisionMonotone(radius: real, amount: real)
    requires radius <= MAX_VISION && 0.0 <= amount
    ensures radius <= GrownVision(radius, amount)
  {
  }

  class Player {
    /** The position, facing and speed the player inherits from a movable entity. */
    const body: Movable
    var visionRadius: real

    ghost predicate Valid()
      reads this, body
    {
      body.speed == 1.0
    }

    /** A player on cell (startX, startY), facing down, with the given vision radius. */
    constructor (startX: int, startY: int, visionRadius: real)
      ensures Valid() && fresh(body)
      ensures body.x == startX as real && body.y == startY as real && body.direction == 2
      ensures CellX() == startX && CellY() == startY
      ensures this.visionRadius == visionRadius
    {
      body := new Movable(startX as real, startY as real, 1.0);
      this.visionRadius := visionRadius;
      new;
      WholeNumbersStay(startX);
      WholeNumbersStay(startY);
    }

    /** The column of the cell the player stands on: the position truncated toward zero. */
    function CellX(): (r: int)
      reads this, body
      ensures body.x >= 0.0 ==> r as real <= body.x < r as real + 1.0
      ensures body.x < 0.0 ==> r as real - 1.0 < body.x <= r as real
    {
      Trunc(body.x)
    }

    /** The row of the cell the player stands on: the position truncated toward zero. */
    function CellY(): (r: int)
      reads this, body
      ensures body.y >= 0.0 ==> r as real <= body.y < r as real + 1.0
      ensures body.y < 0.0 ==> r as real - 1.0 < body.y <= r as real
    {
      Trunc(body.y)
    }

    /** Adds `amount` to the vision radius, capped at MAX_VISION. */
    method IncreaseVision(amount: real)
      modifies this
      ensures visionRadius == GrownVision(old(visionRadius), amount)
      ensures visionRadius <= MAX_VISION
    {
      visionRadius := visionRadius + amount;
      if visionRadius > MAX_VISION {
        visionRadius := MAX_VISION;
      }
    }

    /** A player's move is a movable entity's move at speed 1: whole cells at a time. */
    method Move(dx: int, dy: int)
      requires Valid()
      modifies body
      ensures Valid()
      ensures body.x == old(body.x) + dx as real && body.y == old(body.y) + dy as real
      ensures body.direction == Facing(dx, dy, old(body.direction))
    {
      body.Move(dx, dy);
    }

    /** Whether the cell (cellX, cellY) lies within the vision radius, walls notwithstanding. */
    function IsInVision(cellX: int, cellY: int): (r: bool)
      reads this, body
      ensures r <==> WithinRadius(body.x, body.y, cellX as real, cellY as real, visionRadius)
    {
      var dx := cellX as real - body.x;
      var dy := cellY as real - body.y;
      dx * dx + dy * dy <= visionRadius * visionRadius
    }

    /** Every cell within a non-negative vision radius is at most that radius away along each axis. */
    lemma VisionBounded(cellX: int, cellY: int)
      requires 0.0 <= visionRadius && IsInVision(cellX, cellY)
      ensures Abs(cellX as real - body.x) <= visionRadius
      ensures Abs(cellY as real - body.y) <= visionRadius
    {
      WithinRadiusBounded(body.x, body.y, cellX as real, cellY as real, visionRadius);
    }

    /** The player always sees the cell it stands on once its position is a whole cell. */
    lemma SeesOwnCell()
      requires body.x == CellX() as real && body.y == CellY() as real
      ensures IsInVision(CellX(), CellY())
    {
    }
  }
}
