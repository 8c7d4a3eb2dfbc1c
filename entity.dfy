/**
 * Game objects that have a real-valued position, and movable entities that
 * also have a speed and the direction they face (0 = up, 1 = right,
 * 2 = down, 3 = left, the same numbering as the maze's walls).
 */
module Entities {
  import opened Grid

  /** The direction a movable entity faces after a move by (xp, yp) when it faced `dir` before. */
  function Facing(xp: int, yp: int, dir: int): (r: int)
  {
    if xp < 0 then 3
    else if xp > 0 then 1
    else if yp < 0 then 0
    else if yp > 0 then 2
    else dir
  }

  /**
   * The facing after a unit step names the wall the step crosses; for any
   * other non-zero move the horizontal component decides; a move by (0, 0)
   * keeps the old facing.
   */
  lemma FacingMatchesStep(xp: int, yp: int, dir: int)
    ensures IsUnitStep(xp, yp) ==> Facing(xp, yp, dir) == DirOf(xp, yp)
    ensures xp != 0 ==> Facing(xp, yp, dir) == Facing(xp, 0, dir) && Dx(Facing(xp, yp, dir)) * xp > 0
    ensures xp == 0 && yp != 0 ==> Dy(Facing(xp, yp, dir)) * yp > 0
    ensures xp == 0 && yp == 0 ==> Facing(xp, yp, dir) == dir
    ensures (xp != 0 || yp != 0 || IsDir(dir)) ==> IsDir(Facing(xp, yp, dir))
  {
  }

  class Movable {
    var x: real
    var y: real
    var direction: int
    const speed: real

    /** A movable entity at (posX, posY) with the given speed, facing down. */
    constructor (posX: real, posY: real, speed: real)
      ensures x == posX && y == posY && this.speed == speed
      ensures direction == 2
    {
      x, y, direction, this.speed := posX, posY, 2, speed;
    }

    function GetX(): real
      reads this
    {
      x
    }

    function GetY(): real
      reads this
    {
      y
    }

    method SetPosition(posX: real, posY: real)
      modifies this
      ensures GetX() == posX && GetY() == posY
      ensures direction == old(direction)
    {
      x, y := posX, posY;
    }

    /**
     * Moves by (xp, yp) steps of `speed` and turns to face the move, the
     * horizontal component taking priority; (0, 0) changes nothing.
     */
    method Move(xp: int, yp: int)
      modifies this
      ensures x == old(x) + xp as real * speed && y == old(y) + yp as real * speed
      ensures direction == Facing(xp, yp, old(direction))
      ensures xp == 0 && yp == 0 ==> x == old(x) && y == old(y) && direction == old(direction)
    {
      x := x + xp as real * speed;
      y := y + yp as real * speed;
      if xp < 0 {
        direction := 3;
      } else if xp > 0 {
        direction := 1;
      } else if yp < 0 {
        direction := 0;
      } else if yp > 0 {
        direction := 2;
      }
    }
  }
}
