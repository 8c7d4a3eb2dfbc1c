/**
 * Enemies: movable entities that creep toward the player a twentieth of a
 * cell at a time, steering greedily along one axis and falling back to the
 * other axis when the maze blocks the first; they can take damage and die.
 */
module Enemies {
  import opened Grid
  import opened Numeric
  import opened Entities
  import opened Players
  import opened Mazes

  const ENEMY_SPEED: real := 0.05
  const START_HEALTH: real := 3.0
  /** The detection radius an enemy gets unless told otherwise. */
  const DEFAULT_DETECTION: real := 4.0
  /** How far off the target must be along an axis before the enemy steps along it. */
  const THRESHOLD: real := 0.1

  /** The sign of `delta`, or 0 when `delta` lies within THRESHOLD of zero. */
  function ThresholdSign(delta: real): (s: int)
    ensures s == 1 <==> delta > THRESHOLD
    ensures s == -1 <==> delta < -THRESHOLD
    ensures s == 0 <==> -THRESHOLD <= delta <= THRESHOLD
  {
    if delta > THRESHOLD then 1 else if delta < -THRESHOLD then -1 else 0
  }

  /** The step tried first toward a target (dx, dy) away: along x when |dx| > |dy|, else along y. */
  function PrimaryStep(dx: real, dy: real): (int, int)
  {
    if Abs(dx) > Abs(dy) then (ThresholdSign(dx), 0) else (0, ThresholdSign(dy))
  }

  /** The step tried when the primary step is blocked: the other axis, with its own thresholded sign. */
  function AlternateStep(dx: real, dy: real): (int, int)
  {
    var p := PrimaryStep(dx, dy);
    if p.0 != 0 then (0, ThresholdSign(dy))
    else if p.1 != 0 then (ThresholdSign(dx), 0)
    else (0, 0)
  }

  /**
   * The step the enemy takes toward a target (dx, dy) away, given whether
   * the maze allows the primary step and whether it allows the alternate one.
   */
  function ChaseStep(dx: real, dy: real, primaryOpen: bool, alternateOpen: bool): (int, int)
  {
    var p := PrimaryStep(dx, dy);
    var a := AlternateStep(dx, dy);
    if p == (0, 0) then (0, 0)
    else if primaryOpen then p
    else if a != (0, 0) && alternateOpen then a
    else (0, 0)
  }

  /** The chase step of an enemy on cell `c`, querying `maze` for the legality of each candidate step; with no maze every step is legal. */
  function Chase(dx: real, dy: real, c: Pos, maze: Maze?): (int, int)
    reads maze, if maze == null then {} else {maze.visited, maze.walls}
    requires maze != null ==> maze.Valid() && InGrid(maze.cols, maze.rows, c)
  {
    var p, a := PrimaryStep(dx, dy), AlternateStep(dx, dy);
    ChaseStep(dx, dy, maze == null || maze.CanMove(c.x, c.y, p.0, p.1),
                      maze == null || maze.CanMove(c.x, c.y, a.0, a.1))
  }

  /** Whether (sx, sy) is no move at all or one of the four unit steps. */
  predicate UnitOrStill(s: (int, int))
  {
    s == (0, 0) || IsUnitStep(s.0, s.1)
  }

  /**
   * The primary step runs along x exactly when |dx| > |dy| (so ties go to y),
   * moves only when that axis is more than THRESHOLD off, and points toward
   * the target; the alternate step runs along the other axis.
   */
  lemma PrimaryStepShape(dx: real, dy: real)
    ensures var p := PrimaryStep(dx, dy);
            && UnitOrStill(p)
            && (Abs(dx) > Abs(dy) ==> p.1 == 0 && p.0 == ThresholdSign(dx))
            && (Abs(dx) <= Abs(dy) ==> p.0 == 0 && p.1 == ThresholdSign(dy))
            && (p.0 != 0 ==> p.0 as real * dx > THRESHOLD)
            && (p.1 != 0 ==> p.1 as real * dy > THRESHOLD)
    ensures var a := AlternateStep(dx, dy);
            && UnitOrStill(a)
            && (a != (0, 0) ==> PrimaryStep(dx, dy) != (0, 0))
            && (PrimaryStep(dx, dy).0 != 0 ==> a.0 == 0)
            && (PrimaryStep(dx, dy).1 != 0 ==> a.1 == 0)
            && (a.0 != 0 ==> a.0 as real * dx > THRESHOLD)
            && (a.1 != 0 ==> a.1 as real * dy > THRESHOLD)
  {
  }

  /**
   * The chase never moves diagonally or away from the target along either
   * axis; it moves only along a step the maze allows: the primary one when
   * that is open, else the alternate one when that is open, else not at all.
   */
  lemma ChaseStepSafe(dx: real, dy: real, primaryOpen: bool, alternateOpen: bool)
    ensures var s := ChaseStep(dx, dy, primaryOpen, alternateOpen);
            && UnitOrStill(s)
            && (s.0 != 0 ==> s.0 as real * dx > THRESHOLD)
            && (s.1 != 0 ==> s.1 as real * dy > THRESHOLD)
            && (s != (0, 0) ==> (s == PrimaryStep(dx, dy) && primaryOpen) || (s == AlternateStep(dx, dy) && alternateOpen))
            && (PrimaryStep(dx, dy) == (0, 0) ==> s == (0, 0))
            && (PrimaryStep(dx, dy) != (0, 0) && primaryOpen ==> s == PrimaryStep(dx, dy))
            && (PrimaryStep(dx, dy) != (0, 0) && !primaryOpen && AlternateStep(dx, dy) != (0, 0) && alternateOpen ==> s == AlternateStep(dx, dy))
            && (PrimaryStep(dx, dy) != (0, 0) && !primaryOpen && (AlternateStep(dx, dy) == (0, 0) || !alternateOpen) ==> s == (0, 0))
  {
    PrimaryStepShape(dx, dy);
  }

  /** Moving a twentieth of a cell either keeps the rounded cell or moves it one cell in the direction of the move. */
  lemma RoundedCellCreeps(r: real, s: int)
    requires -1 <= s <= 1
    ensures Round(r + s as real * ENEMY_SPEED) == Round(r) || Round(r + s as real * ENEMY_SPEED) == Round(r) + s
  {
    var n, m := Round(r), Round(r + s as real * ENEMY_SPEED);
    assert n as real - 0.5 <= r <= n as real + 0.5;
    assert m as real - 0.5 <= r + s as real * ENEMY_SPEED <= m as real + 0.5;
  }

  /** A creep by a unit step or none keeps the rounded cell or moves it by exactly that step. */
  lemma CellCreeps(x: real, y: real, sx: int, sy: int)
    requires UnitOrStill((sx, sy))
    ensures var c, d := Pos(Round(x), Round(y)), Pos(Round(x + sx as real * ENEMY_SPEED), Round(y + sy as real * ENEMY_SPEED));
            d == c || d == Pos(c.x + sx, c.y + sy)
  {
    RoundedCellCreeps(x, sx);
    RoundedCellCreeps(y, sy);
  }

  class Enemy {
    /** The position, facing and speed the enemy inherits from a movable entity. */
    const body: Movable
    const detectionRadius: real
    var health: real
    var isDead: bool

    ghost predicate Valid()
      reads this, body
    {
      && body.speed == ENEMY_SPEED
      && (health <= 0.0 ==> isDead)
    }

    /** An enemy on cell (startX, startY): speed 0.05, facing down, health 3 and alive. */
    constructor (startX: int, startY: int, detectionRadius: real)
      ensures Valid() && fresh(body)
      ensures body.x == startX as real && body.y == startY as real && body.direction == 2
      ensures this.detectionRadius == detectionRadius
      ensures health == START_HEALTH && !isDead
    {
      body := new Movable(startX as real, startY as real, ENEMY_SPEED);
      this.detectionRadius := detectionRadius;
      health, isDead := START_HEALTH, false;
    }

    function GetDetectionRadius(): real
    {
      detectionRadius
    }

    function GetHealth(): real
      reads this
    {
      health
    }

    function Dead(): bool
      reads this
    {
      isDead
    }

    /** Lowers health by `amount`; the enemy is dead once health is at most 0, and stays dead. */
    method TakeDamage(amount: real)
      requires Valid()
      modifies this
      ensures Valid()
      ensures health == old(health) - amount
      ensures isDead <==> old(isDead) || health <= 0.0
      ensures old(isDead) ==> isDead
    {
      health := health - amount;
      if health <= 0.0 {
        isDead := true;
      }
    }

    /** Whether the player lies within the detection radius of the enemy, the boundary included. */
    function IsInDetectionRange(player: Player): (r: bool)
      reads this, body, player, player.body
      ensures r <==> WithinRadius(body.x, body.y, player.body.x, player.body.y, detectionRadius)
    {
      var dx := player.body.x - body.x;
      var dy := player.body.y - body.y;
      dx * dx + dy * dy <= detectionRadius * detectionRadius
    }

    /** Detection works both ways: the enemy detects the player exactly when the player is within the same radius of the enemy. */
    lemma DetectionSymmetric(player: Player)
      ensures IsInDetectionRange(player) <==>
              WithinRadius(player.body.x, player.body.y, body.x, body.y, detectionRadius)
    {
      WithinRadiusSymmetric(body.x, body.y, player.body.x, player.body.y, detectionRadius);
    }

    /** The cell the enemy is taken to stand on: its position rounded to the nearest cell. */
    function RoundedCell(): (c: Pos)
      reads this, body
      ensures Abs(c.x as real - body.x) <= 0.5 && Abs(c.y as real - body.y) <= 0.5
    {
      Pos(Round(body.x), Round(body.y))
    }

    /**
     * The step of one chase toward a target (dx, dy) away from an enemy on
     * cell `c`: the primary step when the maze allows it (or there is no
     * maze), else the alternate step when that is non-zero and allowed,
     * else no step.
     */
    static method ChooseStep(dx: real, dy: real, c: Pos, maze: Maze?) returns (sx: int, sy: int)
      requires maze != null ==> maze.Valid() && InGrid(maze.cols, maze.rows, c)
      ensures (sx, sy) == Chase(dx, dy, c, maze)
      ensures UnitOrStill((sx, sy))
      ensures maze != null && (sx, sy) != (0, 0) ==> maze.CanMove(c.x, c.y, sx, sy)
    {
      ghost var p, a := PrimaryStep(dx, dy), AlternateStep(dx, dy);
      PrimaryStepShape(dx, dy);
      ChaseStepSafe(dx, dy, maze == null || maze.CanMove(c.x, c.y, p.0, p.1),
                            maze == null || maze.CanMove(c.x, c.y, a.0, a.1));
      var stepX, stepY := 0, 0;
      if Abs(dx) > Abs(dy) {
        if dx > THRESHOLD {
          stepX := 1;
        } else if dx < -THRESHOLD {
          stepX := -1;
        }
      } else {
        if dy > THRESHOLD {
          stepY := 1;
        } else if dy < -THRESHOLD {
          stepY := -1;
        }
      }
      if stepX == 0 && stepY == 0 {
        return 0, 0;
      }
      if maze != null && !maze.CanMove(c.x, c.y, stepX, stepY) {
        if stepX != 0 {
          var altStepY := if dy > THRESHOLD then 1 else if dy < -THRESHOLD then -1 else 0;
          if altStepY != 0 && maze.CanMove(c.x, c.y, 0, altStepY) {
            return 0, altStepY;
          }
        } else if stepY != 0 {
          var altStepX := if dx > THRESHOLD then 1 else if dx < -THRESHOLD then -1 else 0;
          if altStepX != 0 && maze.CanMove(c.x, c.y, altStepX, 0) {
            return altStepX, 0;
          }
        }
        return 0, 0;
      }
      return stepX, stepY;
    }

    /**
     * One chase step toward the player: the enemy moves by the chosen step
     * times its speed and turns to face it; with no step nothing changes.
     * The enemy's rounded cell stays inside the maze.
     */
    method MoveTowardPlayer(player: Player, maze: Maze?)
      requires Valid()
      requires maze != null ==> maze.Valid() && InGrid(maze.cols, maze.rows, RoundedCell())
      modifies body
      ensures Valid()
      ensures var s := old(Chase(player.body.x - body.x, player.body.y - body.y, RoundedCell(), maze));
              && body.x == old(body.x) + s.0 as real * ENEMY_SPEED
              && body.y == old(body.y) + s.1 as real * ENEMY_SPEED
              && body.direction == Facing(s.0, s.1, old(body.direction))
      ensures maze != null ==> InGrid(maze.cols, maze.rows, RoundedCell())
    {
      var dx := player.body.x - body.x;
      var dy := player.body.y - body.y;
      var c := RoundedCell();
      var sx, sy := ChooseStep(dx, dy, c, maze);
      assert (sx, sy) == old(Chase(player.body.x - body.x, player.body.y - body.y, RoundedCell(), maze));
      Creep(sx, sy);
    }

    /** Moves by the chosen step, if any, at the enemy's speed. */
    method Creep(sx: int, sy: int)
      requires Valid() && UnitOrStill((sx, sy))
      modifies body
      ensures Valid()
      ensures RoundedCell() == old(RoundedCell()) || RoundedCell() == Pos(old(RoundedCell()).x + sx, old(RoundedCell()).y + sy)
      ensures body.x == old(body.x) + sx as real * ENEMY_SPEED && body.y == old(body.y) + sy as real * ENEMY_SPEED
      ensures body.direction == Facing(sx, sy, old(body.direction))
    {
      if sx != 0 || sy != 0 {
        body.Move(sx, sy);
      }
      assert body.x == old(body.x) + sx as real * ENEMY_SPEED && body.y == old(body.y) + sy as real * ENEMY_SPEED;
      CellCreeps(old(body.x), old(body.y), sx, sy);
    }

    /** The overload without a maze: every primary step is taken. */
    method MoveTowardPlayerFreely(player: Player)
      requires Valid()
      modifies body
      ensures Valid()
      ensures var dx, dy := old(player.body.x) - old(body.x), old(player.body.y) - old(body.y);
              var s := PrimaryStep(dx, dy);
              && body.x == old(body.x) + s.0 as real * ENEMY_SPEED
              && body.y == old(body.y) + s.1 as real * ENEMY_SPEED
              && body.direction == Facing(s.0, s.1, old(body.direction))
    {
      MoveTowardPlayer(player, null);
    }
  }
}
