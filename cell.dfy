/**
 * A single maze cell: its grid coordinates, a visited flag and four wall
 * flags indexed 0 = top, 1 = right, 2 = bottom, 3 = left.
 */
module MazeCells {

  /** The wall flags `ws` with wall `d` knocked down. */
  function WithoutWall(ws: seq<bool>, d: int): (r: seq<bool>)
    requires 0 <= d < |ws|
    ensures |r| == |ws| && !r[d]
    ensures forall k | 0 <= k < |ws| && k != d :: r[k] == ws[k]
  {
    ws[d := false]
  }

  /** Knocking down a wall that is already down changes nothing, and so does knocking it down twice. */
  lemma WithoutWallIdempotent(ws: seq<bool>, d: int)
    requires 0 <= d < |ws|
    ensures !ws[d] ==> WithoutWall(ws, d) == ws
    ensures WithoutWall(WithoutWall(ws, d), d) == WithoutWall(ws, d)
  {
    if !ws[d] {
      assert forall k | 0 <= k < |ws| :: WithoutWall(ws, d)[k] == ws[k];
    }
  }

  /** Knocking down two walls gives the same cell in either order. */
  lemma WithoutWallCommutes(ws: seq<bool>, a: int, b: int)
    requires 0 <= a < |ws| && 0 <= b < |ws|
    ensures WithoutWall(WithoutWall(ws, a), b) == WithoutWall(WithoutWall(ws, b), a)
  {
    var l, r := WithoutWall(WithoutWall(ws, a), b), WithoutWall(WithoutWall(ws, b), a);
    assert forall k | 0 <= k < |ws| :: l[k] == r[k];
  }

  class Cell {
    const x: int
    const y: int
    var visited: bool
    /** The four wall flags: top, right, bottom, left. */
    const walls: array<bool>

    ghost predicate Valid()
      reads this
    {
      walls.Length == 4
    }

    /** The default cell: at (0, 0), unvisited, all four walls standing. */
    constructor Default()
      ensures Valid() && fresh(walls)
      ensures x == 0 && y == 0 && !visited
      ensures walls[..] == [true, true, true, true]
    {
      x, y, visited := 0, 0, false;
      walls := new bool[4];
      new;
      SetAllWalls();
    }

    /** The cell at (x, y): unvisited, all four walls standing. */
    constructor (x: int, y: int)
      ensures Valid() && fresh(walls)
      ensures this.x == x && this.y == y && !visited
      ensures walls[..] == [true, true, true, true]
    {
      this.x, this.y, visited := x, y, false;
      walls := new bool[4];
      new;
      SetAllWalls();
    }

    /** The constructors' loop that raises each of the four walls. */
    method SetAllWalls()
      requires Valid()
      modifies walls
      ensures walls[..] == [true, true, true, true]
    {
      for i := 0 to 4
        invariant forall k | 0 <= k < i :: walls[k]
      {
        walls[i] := true;
      }
    }

    method SetVisited(v: bool)
      modifies this
      ensures visited == v && IsVisited() == v
    {
      visited := v;
    }

    function IsVisited(): bool
      reads this
    {
      visited
    }

    /** Knocks down wall `d` and leaves the other three walls and the visited flag as they were. */
    method RemoveWall(d: int)
      requires Valid() && 0 <= d < 4
      modifies walls
      ensures walls[..] == WithoutWall(old(walls[..]), d)
      ensures !HasWall(d)
    {
      walls[d] := false;
    }

    /** Whether wall `d` stands; `d` must name one of the four walls. */
    function HasWall(d: int): (r: bool)
      reads this, walls
      requires Valid() && 0 <= d < 4
      ensures r <==> walls[..][d]
    {
      walls[d]
    }

    function GetX(): int
    {
      x
    }

    function GetY(): int
    {
      y
    }
  }
}
