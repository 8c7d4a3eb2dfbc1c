/**
 * The maze: a rows x cols grid of cells carved by a randomized depth-first
 * backtracker that advances one `Step` at a time, and the movement query
 * `CanMove` that the player and the enemies consult.
 *
 * The cells' state lives in two arrays, `visited[y, x]` and `walls[y, x, d]`;
 * the generator's cursor is a grid position and its backtrack stack a
 * sequence of positions. The ghost sets `Visited` and `Passages` are the
 * public view: the visited cells, and the wall pairs opened so far.
 */
module Mazes {
  import opened Grid
  import opened Options

  class Maze {
    const cols: int
    const rows: int
    const startX: int
    const startY: int
    const finishX: int
    const finishY: int
    /** visited[y, x] is the visited flag of cell (x, y). */
    const visited: array2<bool>
    /** walls[y, x, d] tells whether cell (x, y) still has wall d. */
    const walls: array3<bool>
    var current: Pos
    var stack: seq<Pos>
    var generating: bool

    ghost var Visited: set<Pos>
    ghost var Passages: set<Edge>
    /** For every visited cell but the origin, the wall through which generation first reached it. */
    ghost var ParentDir: map<Pos, int>
    ghost var Depth: map<Pos, nat>

    ghost predicate Valid()
      reads this, visited, walls
    {
      Shape() && FlagsMatch() && WallsMatch() && Carved() && Cursor()
    }

    /** The grid's dimensions, its start and finish cells, and the arrays' sizes. */
    ghost predicate Shape()
      reads this, visited, walls
    {
      && 0 < cols && 0 < rows
      && startX == 0 && startY == 0 && finishX == cols - 1 && finishY == rows - 1
      && visited.Length0 == rows && visited.Length1 == cols
      && walls.Length0 == rows && walls.Length1 == cols && walls.Length2 == 4
    }

    /** The visited flags are exactly the cells in `Visited`. */
    ghost predicate FlagsMatch()
      reads this, visited
    {
      && visited.Length0 == rows && visited.Length1 == cols
      && forall x, y | 0 <= x < cols && 0 <= y < rows :: visited[y, x] <==> Pos(x, y) in Visited
    }

    /**
     * A wall is down exactly when its passage is in `Passages`; as both cells
     * of a wall pair name the same passage, the two halves of a pair agree.
     */
    ghost predicate WallsMatch()
      reads this, walls
    {
      && walls.Length0 == rows && walls.Length1 == cols && walls.Length2 == 4
      && forall x, y, d {:trigger walls[y, x, d]} | 0 <= x < cols && 0 <= y < rows && IsDir(d) ::
           walls[y, x, d] <==> EdgeAt(Pos(x, y), d) !in Passages
    }

    /** The carved passages form a tree over the visited cells, rooted at the origin. */
    ghost predicate Carved()
      reads this
    {
      IsTree(Visited, Passages, ParentDir, Depth)
    }

    /** `open` joins the cells of `reached`, all in the grid, into a tree rooted at the origin. */
    ghost predicate IsTree(reached: set<Pos>, open: set<Edge>, parent: map<Pos, int>, depth: map<Pos, nat>)
    {
      && (forall p | p in reached :: InGrid(cols, rows, p))
      && (forall e | e in open :: e.lo in reached && e.hi in reached)
      && |open| + 1 == |reached|
      && Rooted(reached, open, parent, depth)
    }

    /**
     * The generator's cursor and stack hold visited cells; while generating,
     * every other visited cell has no unvisited neighbour left; once done, the
     * stack is empty and as many cells are visited as the grid has.
     */
    ghost predicate Cursor()
      reads this
    {
      && current in Visited
      && (forall i | 0 <= i < |stack| :: stack[i] in Visited)
      && (generating ==> Frontier(Visited, current, stack))
      && (!generating ==> stack == [] && |Visited| == cols * rows)
    }

    /** Every cell of `reached` other than `cur` and those on `st` has all its in-grid neighbours in `reached`. */
    ghost predicate Frontier(reached: set<Pos>, cur: Pos, st: seq<Pos>)
    {
      forall p {:trigger ClosedIn(cols, rows, reached, p)} | p in reached && p != cur && p !in st ::
        ClosedIn(cols, rows, reached, p)
    }

    /**
     * An upper bound on the number of further steps before generation ends:
     * every unvisited cell costs one forward step and one backtrack, and the
     * final step clears `generating`.
     */
    ghost function StepsLeft(): int
      reads this
    {
      if generating then 2 * (cols * rows - |Visited|) + |stack| + 1 else 0
    }

    constructor (cols: int, rows: int)
      requires 0 < cols && 0 < rows
      ensures Valid() && fresh(visited) && fresh(walls)
      ensures this.cols == cols && this.rows == rows
      ensures startX == 0 && startY == 0 && finishX == cols - 1 && finishY == rows - 1
      ensures generating && current == Origin && stack == []
      ensures Visited == {Origin} && Passages == {}
      ensures forall x, y | 0 <= x < cols && 0 <= y < rows :: visited[y, x] <==> x == 0 && y == 0
      ensures forall x, y, d | 0 <= x < cols && 0 <= y < rows && IsDir(d) :: walls[y, x, d]
      ensures StepsLeft() == 2 * (cols * rows) - 1
    {
      this.cols, this.rows := cols, rows;
      startX, startY := 0, 0;
      finishX, finishY := cols - 1, rows - 1;
      visited := new bool[rows, cols];
      walls := new bool[rows, cols, 4];
      new;
      FillGrid();
      current := Origin;
      visited[0, 0] := true;
      stack := [];
      generating := true;
      Visited := {Origin};
      Passages := {};
      ParentDir := map[];
      Depth := map[Origin := 0];
      assert forall x, y | 0 <= x < cols && 0 <= y < rows :: visited[y, x] <==> x == 0 && y == 0;
      InitialValid();
      CellsCount(cols, rows);
    }

    /** Fills the grid with cells that are unvisited and keep all four walls. */
    method FillGrid()
      requires visited.Length0 == rows && visited.Length1 == cols
      requires walls.Length0 == rows && walls.Length1 == cols && walls.Length2 == 4
      modifies visited, walls
      ensures forall x, y | 0 <= x < cols && 0 <= y < rows :: !visited[y, x]
      ensures forall x, y, d | 0 <= x < cols && 0 <= y < rows && IsDir(d) :: walls[y, x, d]
    {
      var y := 0;
      while y < rows
        invariant 0 <= y <= rows
        invariant forall yy, xx | 0 <= yy < y && 0 <= xx < cols :: !visited[yy, xx]
        invariant forall yy, xx, d | 0 <= yy < y && 0 <= xx < cols && IsDir(d) :: walls[yy, xx, d]
      {
        var x := 0;
        while x < cols
          invariant 0 <= x <= cols
          invariant forall yy, xx | (0 <= yy < y && 0 <= xx < cols) || (yy == y && 0 <= xx < x) :: !visited[yy, xx]
          invariant forall yy, xx, d | ((0 <= yy < y && 0 <= xx < cols) || (yy == y && 0 <= xx < x)) && IsDir(d) ::
                      walls[yy, xx, d]
        {
          // cell (x, y) starts unvisited, with all four walls
          visited[y, x] := false;
          walls[y, x, 0], walls[y, x, 1], walls[y, x, 2], walls[y, x, 3] := true, true, true, true;
          x := x + 1;
        }
        y := y + 1;
      }
    }

    /** The freshly built grid, one visited origin cell and every wall standing, satisfies Valid(). */
    lemma InitialValid()
      requires 0 < cols && 0 < rows
      requires startX == 0 && startY == 0 && finishX == cols - 1 && finishY == rows - 1
      requires visited.Length0 == rows && visited.Length1 == cols
      requires walls.Length0 == rows && walls.Length1 == cols && walls.Length2 == 4
      requires forall x, y | 0 <= x < cols && 0 <= y < rows :: visited[y, x] <==> x == 0 && y == 0
      requires forall x, y, d | 0 <= x < cols && 0 <= y < rows && IsDir(d) :: walls[y, x, d]
      requires generating && current == Origin && stack == []
      requires Visited == {Origin} && Passages == {} && ParentDir == map[] && Depth == map[Origin := 0]
      ensures Valid()
    {
      assert Shape();
      assert FlagsMatch();
      assert WallsMatch();
      assert Rooted(Visited, Passages, ParentDir, Depth);
      assert Carved();
      assert Cursor();
    }

    function GetStartX(): (r: int)
      reads this, visited, walls
      requires Shape()
      ensures r == 0
    {
      startX
    }

    function GetStartY(): (r: int)
      reads this, visited, walls
      requires Shape()
      ensures r == 0
    {
      startY
    }

    function GetFinishX(): (r: int)
      reads this, visited, walls
      requires Shape()
      ensures r == cols - 1 && InGrid(cols, rows, Pos(r, 0))
    {
      finishX
    }

    function GetFinishY(): (r: int)
      reads this, visited, walls
      requires Shape()
      ensures r == rows - 1 && InGrid(cols, rows, Pos(0, r))
    {
      finishY
    }

    function GetCols(): (r: int)
      reads this, visited, walls
      requires Shape()
      ensures r == cols && r > 0
    {
      cols
    }

    function GetRows(): (r: int)
      reads this, visited, walls
      requires Shape()
      ensures r == rows && r > 0
    {
      rows
    }

    /** Generation is over exactly when every cell has been visited and the stack is empty. */
    function IsGenerating(): (r: bool)
      reads this, visited, walls
      requires Valid()
      ensures !r ==> Visited == Cells(cols, rows) && stack == []
      ensures r ==> StepsLeft() > 0
    {
      InGridSubset(cols, rows, Visited);
      SubsetOfCells(cols, rows, Visited);
      generating
    }

    /** The cell at (x, y), or None when (x, y) lies outside the grid. */
    function GetCell(x: int, y: int): (c: Option<Pos>)
      ensures c.Some? <==> InGrid(cols, rows, Pos(x, y))
      ensures c.Some? ==> c.value == Pos(x, y)
    {
      if x < 0 || x >= cols || y < 0 || y >= rows then None else Some(Pos(x, y))
    }

    /** Whether `q` is a cell of the grid that has not been visited yet. */
    function Unvisited(q: Pos): (b: bool)
      reads this, visited, walls
      requires Valid()
      ensures b <==> InGrid(cols, rows, q) && q !in Visited
    {
      match GetCell(q.x, q.y)
      case Some(c) => !visited[c.y, c.x]
      case None => false
    }

    /** The directions from `p` to unvisited in-grid cells, listed top, right, bottom, left. */
    function UnvisitedDirections(p: Pos): (ds: seq<int>)
      reads this, visited, walls
      requires Valid()
      ensures forall i | 0 <= i < |ds| :: IsDir(ds[i])
      ensures forall i, j | 0 <= i < j < |ds| :: ds[i] < ds[j]
      ensures forall d | IsDir(d) :: d in ds <==> Unvisited(Neighbour(p, d))
    {
      Candidates([Unvisited(Neighbour(p, 0)), Unvisited(Neighbour(p, 1)),
                  Unvisited(Neighbour(p, 2)), Unvisited(Neighbour(p, 3))], 0)
    }

    /** removeWall on the cell at `p`: clears wall `d` of that cell and nothing else. */
    method RemoveWall(p: Pos, d: int)
      requires InGrid(cols, rows, p) && IsDir(d)
      requires walls.Length0 == rows && walls.Length1 == cols && walls.Length2 == 4
      modifies walls
      ensures forall y, x, k | 0 <= y < rows && 0 <= x < cols && IsDir(k) ::
                walls[y, x, k] == (if Pos(x, y) == p && k == d then false else old(walls[y, x, k]))
    {
      walls[p.y, p.x, d] := false;
    }

    /**
     * Picks the unvisited neighbour of `current` with index `roll % n` among
     * the n candidates and opens the wall pair between the two cells; None,
     * and no change, when there is no candidate. `roll` is the value of rand().
     */
    method UnvisitedNeighbor(roll: nat) returns (next: Option<Pos>)
      requires Valid()
      modifies walls
      ensures var ds := old(UnvisitedDirections(current));
              if ds == [] then next == None && unchanged(walls)
              else
                var d := ds[roll % |ds|];
                && next == Some(Neighbour(current, d))
                && forall y, x, k | 0 <= y < rows && 0 <= x < cols && IsDir(k) ::
                     walls[y, x, k] ==
                       if (Pos(x, y) == current && k == d) || (Pos(x, y) == Neighbour(current, d) && k == Opposite(d))
                       then false else old(walls[y, x, k])
    {
      var ds := UnvisitedDirections(current);
      if ds == [] {
        return None;
      }
      var d := ds[roll % |ds|];
      var n := Neighbour(current, d);
      RemoveWall(current, d);
      RemoveWall(n, (d + 2) % 4);
      next := Some(n);
    }

    /**
     * One step of the backtracker: go forward to a random unvisited
     * neighbour, else backtrack by popping the stack, else finish.
     */
    method Step(roll: nat)
      requires Valid()
      modifies this, visited, walls
      ensures Valid()
      ensures !old(generating) ==> unchanged(this, visited, walls)
      ensures old(generating) ==> StepsLeft() == old(StepsLeft()) - 1
      ensures old(generating) ==>
        var ds := old(UnvisitedDirections(current));
        if ds != [] then
          var d := ds[roll % |ds|];
          var next := Neighbour(old(current), d);
          && next !in old(Visited)
          && generating && current == next && stack == old(stack) + [old(current)]
          && Visited == old(Visited) + {next}
          && Passages == old(Passages) + {EdgeAt(old(current), d)}
        else if old(stack) != [] then
          && generating
          && current == old(stack)[|old(stack)| - 1] && stack == old(stack)[..|old(stack)| - 1]
          && Visited == old(Visited) && Passages == old(Passages)
          && unchanged(visited, walls)
        else
          && !generating && current == old(current) && stack == []
          && Visited == old(Visited) && Passages == old(Passages)
          && unchanged(visited, walls)
    {
      if !generating {
        return;
      }
      ghost var ds := UnvisitedDirections(current);
      var next := UnvisitedNeighbor(roll);
      if next.Some? {
        Forward(next.value, ds[roll % |ds|]);
      } else if stack != [] {
        Backtrack();
      } else {
        Finish();
      }
    }

    /**
     * The forward move of the backtracker, once the wall pair towards the
     * unvisited neighbour `n` through wall `d` is open: mark `n` visited,
     * push the current cell and move to `n`.
     */
    method Forward(n: Pos, ghost d: int)
      requires Shape() && FlagsMatch() && Carved() && Cursor() && generating
      requires IsDir(d) && n == Neighbour(current, d) && InGrid(cols, rows, n) && n !in Visited
      requires forall y, x, k | 0 <= y < rows && 0 <= x < cols && IsDir(k) ::
                 walls[y, x, k] ==
                   if (Pos(x, y) == current && k == d) || (Pos(x, y) == n && k == Opposite(d))
                   then false else EdgeAt(Pos(x, y), k) !in Passages
      modifies this, visited
      ensures Valid() && generating
      ensures StepsLeft() == old(StepsLeft()) - 1
      ensures current == n && stack == old(stack) + [old(current)]
      ensures Visited == old(Visited) + {n} && Passages == old(Passages) + {EdgeAt(old(current), d)}
    {
      ghost var v0, p0, par0, dep0, from, stack0 := Visited, Passages, ParentDir, Depth, current, stack;
      assert IsTree(v0, p0, par0, dep0) && Frontier(v0, from, stack0);
      assert from in dep0;
      Advance(n, EdgeAt(from, d), Opposite(d), dep0[from] + 1);
      ForwardWalls(p0, from, d);
      ForwardCarved(v0, p0, par0, dep0, from, d, n, dep0[from] + 1);
      ForwardCursor(v0, from, d, stack0);
    }

    /**
     * The state change of a forward move: mark `n` visited, push the current
     * cell and move to `n`; the ghost view records the carved passage `e` and
     * the wall `back` that leads from `n` to its parent.
     */
    method Advance(n: Pos, ghost e: Edge, ghost back: int, ghost depth: nat)
      requires InGrid(cols, rows, n) && FlagsMatch()
      modifies this, visited
      ensures FlagsMatch()
      ensures current == n && stack == old(stack) + [old(current)] && generating == old(generating)
      ensures Visited == old(Visited) + {n} && Passages == old(Passages) + {e}
      ensures ParentDir == old(ParentDir)[n := back] && Depth == old(Depth)[n := depth]
    {
      visited[n.y, n.x] := true;
      stack := stack + [current];
      current := n;
      Visited := Visited + {n};
      Passages := Passages + {e};
      ParentDir := ParentDir[n := back];
      Depth := Depth[n := depth];
      ForwardFlags(old(Visited), n);
    }

    /** The backtrack move: the current cell has no unvisited neighbour, so return to the top of the stack. */
    method Backtrack()
      requires Valid() && generating && stack != []
      requires UnvisitedDirections(current) == []
      modifies this
      ensures Valid() && generating
      ensures StepsLeft() == old(StepsLeft()) - 1
      ensures current == old(stack)[|old(stack)| - 1] && stack == old(stack)[..|old(stack)| - 1]
      ensures Visited == old(Visited) && Passages == old(Passages)
    {
      StuckIsClosed(current);
      PopKeepsFrontier(Visited, current, stack);
      current := stack[|stack| - 1];
      stack := stack[..|stack| - 1];
    }

    /** The last step: nothing left to visit and nothing to backtrack to, so generation ends. */
    method Finish()
      requires Valid() && generating && stack == []
      requires UnvisitedDirections(current) == []
      modifies this
      ensures Valid() && !generating && stack == [] && current == old(current)
      ensures StepsLeft() == old(StepsLeft()) - 1
      ensures Visited == old(Visited) && Passages == old(Passages)
      ensures Visited == Cells(cols, rows)
    {
      StuckIsClosed(current);
      EmptyFrontierCloses(Visited, current);
      generating := false;
      ClosedCoversGrid(cols, rows, Visited);
      InGridSubset(cols, rows, Visited);
      CellsCount(cols, rows);
    }

    /** Opening the wall pair between `from` and its neighbour through `d` keeps walls and passages in step. */
    lemma ForwardWalls(p0: set<Edge>, from: Pos, d: int)
      requires IsDir(d)
      requires walls.Length0 == rows && walls.Length1 == cols && walls.Length2 == 4
      requires forall y, x, k | 0 <= y < rows && 0 <= x < cols && IsDir(k) ::
                 walls[y, x, k] ==
                   if (Pos(x, y) == from && k == d) || (Pos(x, y) == Neighbour(from, d) && k == Opposite(d))
                   then false else EdgeAt(Pos(x, y), k) !in p0
      requires Passages == p0 + {EdgeAt(from, d)}
      ensures WallsMatch()
    {
      EdgeAtPair(from, d);
      forall x, y, k | 0 <= x < cols && 0 <= y < rows && IsDir(k)
        ensures walls[y, x, k] <==> EdgeAt(Pos(x, y), k) !in Passages
      {
        if EdgeAt(Pos(x, y), k) == EdgeAt(from, d) {
          EdgeAtSides(from, d, Pos(x, y), k);
        }
      }
    }

    /** Marking the new cell visited keeps the flags and `Visited` in step. */
    lemma ForwardFlags(v0: set<Pos>, n: Pos)
      requires visited.Length0 == rows && visited.Length1 == cols
      requires InGrid(cols, rows, n) && visited[n.y, n.x]
      requires forall x, y | 0 <= x < cols && 0 <= y < rows && Pos(x, y) != n ::
                 visited[y, x] <==> Pos(x, y) in v0
      requires Visited == v0 + {n}
      ensures FlagsMatch()
    {
    }

    /** Carving a passage to an unvisited neighbour grows the tree by one cell and one passage. */
    lemma ForwardCarved(v0: set<Pos>, p0: set<Edge>, par0: map<Pos, int>, dep0: map<Pos, nat>,
                        from: Pos, d: int, n: Pos, nDepth: nat)
      requires IsDir(d) && from in v0 && n == Neighbour(from, d)
      requires InGrid(cols, rows, n) && n !in v0
      requires IsTree(v0, p0, par0, dep0)
      requires from in dep0 && nDepth == dep0[from] + 1
      requires Visited == v0 + {n} && Passages == p0 + {EdgeAt(from, d)}
      requires ParentDir == par0[n := Opposite(d)] && Depth == dep0[n := nDepth]
      ensures Carved()
    {
      assert EdgeAt(from, d) !in p0;
      RootedExtend(v0, p0, par0, dep0, from, d, n, nDepth);
    }

    /** After a forward step every visited cell off the new stack is still closed. */
    lemma ForwardCursor(v0: set<Pos>, from: Pos, d: int, stack0: seq<Pos>)
      requires IsDir(d) && from in v0
      requires forall i | 0 <= i < |stack0| :: stack0[i] in v0
      requires Frontier(v0, from, stack0)
      requires Visited == v0 + {Neighbour(from, d)}
      requires generating && current == Neighbour(from, d) && stack == stack0 + [from]
      ensures Cursor()
    {
      forall p | p in Visited && p != current && p !in stack
        ensures ClosedIn(cols, rows, Visited, p)
      {
        assert ClosedIn(cols, rows, v0, p);
      }
    }

    /** A visited cell with no unvisited neighbour left has all its in-grid neighbours visited. */
    lemma StuckIsClosed(p: Pos)
      requires Valid()
      requires UnvisitedDirections(p) == []
      ensures ClosedIn(cols, rows, Visited, p)
    {
      forall d | IsDir(d) && InGrid(cols, rows, Neighbour(p, d))
        ensures Neighbour(p, d) in Visited
      {
        assert d !in UnvisitedDirections(p);
      }
    }

    /** Backtracking from a closed cell to the top of the stack keeps the frontier invariant. */
    lemma PopKeepsFrontier(reached: set<Pos>, from: Pos, st: seq<Pos>)
      requires st != []
      requires Frontier(reached, from, st) && ClosedIn(cols, rows, reached, from)
      ensures Frontier(reached, st[|st| - 1], st[..|st| - 1])
    {
      forall p | p in reached && p != st[|st| - 1] && p !in st[..|st| - 1]
        ensures ClosedIn(cols, rows, reached, p)
      {
        if p != from {
          assert p !in st by {
            assert st == st[..|st| - 1] + [st[|st| - 1]];
          }
        }
      }
    }

    /** With an empty stack and a closed cursor, every reached cell is closed. */
    lemma EmptyFrontierCloses(reached: set<Pos>, from: Pos)
      requires Frontier(reached, from, []) && ClosedIn(cols, rows, reached, from)
      ensures forall p {:trigger ClosedIn(cols, rows, reached, p)} | p in reached :: ClosedIn(cols, rows, reached, p)
    {
      forall p | p in reached
        ensures ClosedIn(cols, rows, reached, p)
      {
        if p != from {
          assert p !in [];
        }
      }
    }

    /** Whether an entity standing on cell (x, y) may take the unit step (dx, dy). */
    function CanMove(x: int, y: int, dx: int, dy: int): (r: bool)
      reads this, visited, walls
      requires Valid()
      requires InGrid(cols, rows, Pos(x + dx, y + dy)) ==> InGrid(cols, rows, Pos(x, y))
      ensures !InGrid(cols, rows, Pos(x + dx, y + dy)) ==> !r
      ensures !IsUnitStep(dx, dy) ==> !r
      ensures r <==> InGrid(cols, rows, Pos(x + dx, y + dy)) && IsUnitStep(dx, dy)
                     && EdgeAt(Pos(x, y), DirOf(dx, dy)) in Passages
    {
      if x + dx < 0 || x + dx >= cols || y + dy < 0 || y + dy >= rows then false
      else if dx == 0 && dy == -1 then !walls[y, x, 0]
      else if dx == 1 && dy == 0 then !walls[y, x, 1]
      else if dx == 0 && dy == 1 then !walls[y, x, 2]
      else if dx == -1 && dy == 0 then !walls[y, x, 3]
      else false
    }

    /** The two halves of every wall pair agree: wall `d` of a cell stands exactly when wall `(d + 2) % 4` of its neighbour does. */
    lemma WallsPaired(x: int, y: int, d: int)
      requires Valid() && IsDir(d)
      requires InGrid(cols, rows, Pos(x, y)) && InGrid(cols, rows, Neighbour(Pos(x, y), d))
      ensures var q := Neighbour(Pos(x, y), d);
              walls[y, x, d] == walls[q.y, q.x, Opposite(d)]
    {
      EdgeAtPair(Pos(x, y), d);
    }

    /** A wall on the outer border of the grid is never removed. */
    lemma BorderWallsStand(x: int, y: int, d: int)
      requires Valid() && IsDir(d)
      requires InGrid(cols, rows, Pos(x, y)) && !InGrid(cols, rows, Neighbour(Pos(x, y), d))
      ensures walls[y, x, d]
    {
      var e := EdgeAt(Pos(x, y), d);
      assert Neighbour(Pos(x, y), d) !in Visited;
      assert e.lo == Neighbour(Pos(x, y), d) || e.hi == Neighbour(Pos(x, y), d);
      assert e !in Passages;
    }

    /** A cell the generator has not reached still has all four walls. */
    lemma UnvisitedKeepsWalls(x: int, y: int, d: int)
      requires Valid() && IsDir(d)
      requires InGrid(cols, rows, Pos(x, y)) && !visited[y, x]
      ensures walls[y, x, d]
    {
      assert Pos(x, y) !in Visited;
      assert EdgeAt(Pos(x, y), d) !in Passages;
    }

    /** A step between two cells of the grid is allowed exactly when the step back is. */
    lemma CanMoveSymmetric(x: int, y: int, dx: int, dy: int)
      requires Valid()
      requires InGrid(cols, rows, Pos(x, y)) && InGrid(cols, rows, Pos(x + dx, y + dy))
      ensures CanMove(x, y, dx, dy) == CanMove(x + dx, y + dy, -dx, -dy)
    {
      if IsUnitStep(dx, dy) {
        var d := DirOf(dx, dy);
        EdgeAtPair(Pos(x, y), d);
        assert DirOf(-dx, -dy) == Opposite(d);
        assert Pos(x + dx, y + dy) == Neighbour(Pos(x, y), d);
      }
    }

    /** Once generation is over every cell is visited and the maze has cols * rows - 1 passages. */
    lemma CompletedCounts()
      requires Valid() && !generating
      ensures Visited == Cells(cols, rows)
      ensures |Passages| == cols * rows - 1
      ensures forall x, y | 0 <= x < cols && 0 <= y < rows :: visited[y, x]
    {
      InGridSubset(cols, rows, Visited);
      SubsetOfCells(cols, rows, Visited);
      forall x, y | 0 <= x < cols && 0 <= y < rows
        ensures visited[y, x]
      {
        assert Pos(x, y) in Cells(cols, rows);
      }
    }

    /** Walking from `p` along `dirs`, every step being one that CanMove allows. */
    ghost predicate MovableRoute(p: Pos, dirs: seq<int>)
      reads this, visited, walls
      requires Valid() && InGrid(cols, rows, p)
      decreases |dirs|
    {
      dirs == [] ||
      (IsDir(dirs[0]) && CanMove(p.x, p.y, Dx(dirs[0]), Dy(dirs[0]))
       && MovableRoute(Neighbour(p, dirs[0]), dirs[1..]))
    }

    /** A walk through carved passages is a route of allowed moves. */
    lemma {:induction false} OpenWalkIsMovable(p: Pos, dirs: seq<int>)
      requires Valid() && InGrid(cols, rows, p)
      requires OpenWalk(Passages, p, dirs)
      ensures MovableRoute(p, dirs)
      decreases |dirs|
    {
      if dirs != [] {
        var d := dirs[0];
        var e := EdgeAt(p, d);
        assert e.lo in Visited && e.hi in Visited;
        assert Neighbour(p, d) in Visited;
        DirRoundTrip(d);
        OpenWalkIsMovable(Neighbour(p, d), dirs[1..]);
      }
    }

    /** Every visited cell can be reached from the start cell by moves that CanMove allows. */
    lemma ReachableFromStart(q: Pos) returns (dirs: seq<int>)
      requires Valid() && q in Visited
      ensures MovableRoute(Origin, dirs) && WalkEnd(Origin, dirs) == q
    {
      dirs := RouteFromOrigin(Visited, Passages, ParentDir, Depth, q);
      OpenWalkIsMovable(Origin, dirs);
    }

    /** Once generation is over every cell, the finish included, can be reached from the start. */
    lemma PerfectMazeConnected(x: int, y: int) returns (dirs: seq<int>)
      requires Valid() && !generating
      requires InGrid(cols, rows, Pos(x, y))
      ensures MovableRoute(Origin, dirs) && WalkEnd(Origin, dirs) == Pos(x, y)
    {
      CompletedCounts();
      dirs := ReachableFromStart(Pos(x, y));
    }
  }
}
