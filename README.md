# The Enlightened Path — a Dafny model of the game's core

"The Enlightened Path" is a small maze game. A perfect maze of 30 by 20 cells
is carved step by step by a randomised depth-first generator, the recursive
backtracker. The player is dropped at the top-left cell and has to reach the
bottom-right one. They see only the cells within their vision radius. Riddles
lie in the inner cells of the maze, and answering one widens the player's
vision. A finish time makes the ten-entry leaderboard when it is fast enough.
The program also has chasing enemies, which the game loop does not use yet.

This project models that core in Dafny and proves what it promises:

- `grid.dfy` (module `Grid`): directions 0..3 (top, right, bottom, left),
  cell positions, the cells of a grid, and undirected edges between
  neighbouring cells. It also holds the graph facts the maze proofs use:
  counting, closed sets of cells, and walks through open edges.
- `cell.dfy` (module `MazeCells`): the `Cell` class, with its visited flag and
  its four walls in an array.
- `maze.dfy` (module `Mazes`): the `Maze` class. The grid's visited flags and
  walls are kept in arrays. The generator is `Step`, one step per call, and
  `CanMove` asks whether a move is allowed. Ghost state records:
  - the visited cells;
  - the carved passages;
  - the tree of parent directions;
  - the depth-first stack.

  The invariant `Valid` ties the arrays to that ghost state. It yields:
  - walls always come in matching pairs;
  - the border walls are never removed;
  - every step of the generator makes a bounded measure smaller, so
    generation ends;
  - once generation is over, every cell has been visited, the passages form
    a spanning tree with `cols * rows - 1` edges, and every cell can be
    reached from the start by moves that `CanMove` allows.
- `entity.dfy` (module `Entities`): `MovableEntity`, a position, a speed and a
  facing direction.
- `player.dfy`, `enemy.dfy`, `riddle.dfy`: the player (cell coordinates by
  truncation, vision radius capped at 15), the enemy (health, detection
  circle, chase step), and riddles with their three difficulties, rewards and
  marker colours.
- `numeric.dfy` (module `Numeric`): C++'s truncating cast and `std::round` on
  reals, and the squared-distance circle test used for vision and detection.
- `leaderboard.dfy` (module `Leaderboards`): sorting by time, and cutting the
  board down to ten entries.
- `game.dfy` (module `Games`): the `Game` class and its state machine:
  - Welcome, Generating, Playing, RiddleActive, Victory, GameOver and
    Leaderboard view;
  - five generator steps per update;
  - riddle placement once the maze is done;
  - key handling in each state;
  - typed answers;
  - recording a finish time.

Randomness becomes explicit parameters: a `roll` for each `rand()` in the
generator and a placement for each riddle. The timer becomes a `seconds`
parameter of `UpdateGame`. The leaderboard file becomes the constructor's
`saved` parameter.

The model follows `src/` (the current revision). Two earlier revisions are
kept beside it:
- `maze.cpp` holds only the `Cell` class, a `Maze` with `getCell` and the
  same generator, and a `main`. It has no `canMove`, no start or finish
  cells and no riddles.
- `game.cpp` is the whole game in one file. It has the same generator,
  `canMove`, `addScore` and `checkForRiddle` as `src/`.

Where `game.cpp` differs from `src/`, the difference is stated:
- its riddle markers are coloured only by difficulty (`EarlyMarkerColor`);
- `game.cpp`'s Enter handler reads the riddle before it checks the index.
  The model follows `src/`, which checks the index first. The invariant
  `Consistent` keeps the index in range in the RiddleActive state
  (`ActiveRiddleInRange`), so the two agree on every reachable state.

## Model

| member | source | states |
|---|---|---|
| `Grid.Opposite` | src/Maze.cpp:46 | `(d + 2) % 4` is a different direction that points the other way |
| `Grid.DirOf` | src/Maze.cpp:73-76 | a unit step names the one direction whose offset it is |
| `Grid.DirRoundTrip` | src/Maze.cpp:32-35 | turning a direction into its offset and back gives the same direction |
| `Grid.Candidates` | src/Maze.cpp:36-39 | the directions are collected in ascending order, and a direction is collected exactly when it is wanted |
| `Grid.RowCount` | src/Maze.cpp:13-15 | one row of the grid holds `cols` cells |
| `Grid.CellsSplit` | src/Maze.cpp:11-16 | the grid with one more row is the old grid plus a disjoint new row |
| `Grid.CellsCount` | src/Maze.cpp:10-16 | the grid holds exactly `cols * rows` cells |
| `Grid.InGridSubset` | src/Maze.cpp:21-24 | a set of in-grid positions is a subset of the grid's cells |
| `Grid.SubsetOfCells` | src/Maze.cpp:10-16 | a subset of the grid has at most `cols * rows` cells, and is the whole grid when it has that many |
| `Grid.EdgeAt` | src/Maze.cpp:45-46 | the wall on side `d` of a cell is the edge between it and its neighbour, with its lower end to the left of or above its upper end |
| `Grid.EdgeAtPair` | src/Maze.cpp:45-46 | side `d` of a cell and side `(d + 2) % 4` of its neighbour are the same edge |
| `Grid.EdgeAtSides` | src/Maze.cpp:45-46 | an edge has only those two sides |
| `Grid.ClosedReaches` | src/Maze.cpp:50-68 | a set holding the origin, and closed under in-grid neighbours, holds every cell of the grid |
| `Grid.ClosedCoversGrid` | src/Maze.cpp:64-67 | the same, stated as a subset of the grid |
| `Grid.OpenWalkExtend` | src/Maze.cpp:70-78 | a walk through open edges, extended by one more open edge, is still such a walk, and ends at the neighbour |
| `Grid.RootedExtend` | src/Maze.cpp:55-59 | adding an unvisited neighbour and the edge to it keeps every cell linked to its parent at one less depth |
| `Grid.RouteFromOrigin` | src/Maze.cpp:50-68 | every reached cell has a walk from the origin through carved passages |
| `MazeCells.WithoutWall` | src/Cell.h:19 | removing wall `d` clears that wall and keeps the other three |
| `MazeCells.WithoutWallIdempotent` | src/Cell.h:19 | removing a wall twice is removing it once, and removing a missing wall changes nothing |
| `MazeCells.WithoutWallCommutes` | src/Cell.h:19 | the order in which two walls are removed does not matter |
| `MazeCells.Cell.Default` | src/Cell.cpp:4 | the default cell sits at (0, 0), is unvisited and has all four walls |
| `MazeCells.Cell.constructor` | src/Cell.cpp:5 | a new cell at (x, y) is unvisited and has all four walls |
| `MazeCells.Cell.SetAllWalls` | src/Cell.cpp:5 | the constructors' loop raises all four walls |
| `MazeCells.Cell.SetVisited` | src/Cell.h:16-17 | after `setVisited(v)`, `isVisited()` answers `v` |
| `MazeCells.Cell.RemoveWall` | src/Cell.h:19 | the walls afterwards are the old walls without wall `d`, so `hasWall(d)` is false |
| `MazeCells.Cell.HasWall` | src/Cell.h:20 | reports whether wall `d` stands |
| `Mazes.Maze.constructor` | src/Maze.cpp:9-19 | the new maze is valid and generating, with start (0, 0) and finish (cols-1, rows-1); only the origin is visited and every wall stands; at most `2 * cols * rows - 1` generator steps remain |
| `Mazes.Maze.FillGrid` | src/Maze.cpp:10-16 | every cell of the grid is unvisited and has all four walls |
| `Mazes.Maze.InitialValid` | src/Maze.cpp:17-18 | the fresh grid with only the origin visited satisfies the maze invariant |
| `Mazes.Maze.GetStartX` | src/Maze.h:28 | the start column is 0 |
| `Mazes.Maze.GetStartY` | src/Maze.h:29 | the start row is 0 |
| `Mazes.Maze.GetFinishX` | src/Maze.h:30 | the finish column is the last column, inside the grid |
| `Mazes.Maze.GetFinishY` | src/Maze.h:31 | the finish row is the last row, inside the grid |
| `Mazes.Maze.GetCols` | src/Maze.h:32 | the width is positive |
| `Mazes.Maze.GetRows` | src/Maze.h:33 | the height is positive |
| `Mazes.Maze.IsGenerating` | src/Maze.h:36 | when generation is over, every cell is visited and the stack is empty; while it goes on, some steps remain |
| `Mazes.Maze.GetCell` | src/Maze.cpp:21-24 | a cell exactly for in-grid coordinates, and null otherwise |
| `Mazes.Maze.Unvisited` | src/Maze.cpp:36-39 | a neighbour is a candidate exactly when it exists and is not visited |
| `Mazes.Maze.UnvisitedDirections` | src/Maze.cpp:26-40 | the candidate directions are in top, right, bottom, left order, and hold exactly the directions of unvisited in-grid neighbours |
| `Mazes.Maze.RemoveWall` | src/Cell.h:19 | clears exactly one wall of one cell in the grid |
| `Mazes.Maze.UnvisitedNeighbor` | src/Maze.cpp:26-48 | no candidate gives null and leaves the walls unchanged; otherwise `rand() % n` picks the neighbour, and the wall pair between it and the current cell is removed, nothing else |
| `Mazes.Maze.Step` | src/Maze.cpp:50-68 | a finished maze is left unchanged; otherwise one step moves forward to the picked unvisited neighbour and pushes the current cell, or pops the stack, or ends generation; the invariant holds and the remaining-steps measure drops by one |
| `Mazes.Maze.Forward` | src/Maze.cpp:55-59 | moving to the picked neighbour keeps the invariant, adds the cell and its passage, and pushes the old cell |
| `Mazes.Maze.Advance` | src/Maze.cpp:57-59 | marks the neighbour visited, pushes the current cell and makes the neighbour current |
| `Mazes.Maze.Backtrack` | src/Maze.cpp:60-63 | popping the stack keeps the invariant and the carved maze |
| `Mazes.Maze.Finish` | src/Maze.cpp:64-67 | with no candidate and an empty stack, every cell of the grid has been visited |
| `Mazes.Maze.ForwardWalls` | src/Maze.cpp:45-46 | after the wall pair is removed, every wall stands exactly when its edge is not a passage |
| `Mazes.Maze.ForwardFlags` | src/Maze.cpp:57 | after `setVisited(true)`, the visited flags match the visited set |
| `Mazes.Maze.ForwardCarved` | src/Maze.cpp:55-59 | the passages still form a tree rooted at the origin |
| `Mazes.Maze.ForwardCursor` | src/Maze.cpp:58-59 | every visited cell off the stack and not current still has no unvisited neighbour |
| `Mazes.Maze.StuckIsClosed` | src/Maze.cpp:40 | a cell with no candidate neighbour has all its in-grid neighbours visited |
| `Mazes.Maze.PopKeepsFrontier` | src/Maze.cpp:60-63 | backtracking from a closed cell keeps that frontier property |
| `Mazes.Maze.EmptyFrontierCloses` | src/Maze.cpp:64-67 | with an empty stack, every visited cell is closed |
| `Mazes.Maze.CanMove` | src/Maze.cpp:70-78 | a move is allowed exactly when it is a unit step to an in-grid cell through a carved passage; an out-of-grid target or a step that is not a unit step is refused |
| `Mazes.Maze.WallsPaired` | src/Maze.cpp:45-46 | wall `d` of a cell stands exactly when wall `(d + 2) % 4` of its neighbour does |
| `Mazes.Maze.BorderWallsStand` | src/Maze.cpp:32-39 | a wall on the outer border is never removed |
| `Mazes.Maze.UnvisitedKeepsWalls` | src/Maze.cpp:42-46 | a cell the generator has not reached keeps all four walls |
| `Mazes.Maze.CanMoveSymmetric` | src/Maze.cpp:70-78 | a move between two in-grid cells is allowed exactly when the move back is |
| `Mazes.Maze.CompletedCounts` | src/Maze.cpp:64-67 | after generation every cell is visited and there are exactly `cols * rows - 1` passages |
| `Mazes.Maze.OpenWalkIsMovable` | src/Maze.cpp:70-78 | a walk through carved passages is a sequence of moves that `canMove` allows |
| `Mazes.Maze.ReachableFromStart` | src/Maze.cpp:70-78 | every visited cell has a route from the start made of allowed moves |
| `Mazes.Maze.PerfectMazeConnected` | src/Maze.cpp:50-78 | once generation is over, every cell, the finish included, can be reached from the start |
| `Numeric.Abs` | src/Enemy.cpp:40 | the absolute value is non-negative and equals `r` or `-r` |
| `Numeric.Trunc` | src/Player.cpp:12-13 | `static_cast<int>` truncates toward zero |
| `Numeric.Round` | src/Enemy.cpp:33-34 | `std::round` gives the nearest integer, halves away from zero |
| `Numeric.WholeNumbersStay` | src/Player.cpp:12-13 | truncating or rounding a whole number gives it back |
| `Numeric.TruncShift` | src/GameObject.cpp:20-22 | moving a whole-number position by a whole step moves its truncated cell by that step |
| `Numeric.WithinRadiusSymmetric` | src/Enemy.cpp:20-24 | the squared-distance circle test is symmetric in its two points |
| `Numeric.WiderRadiusSeesMore` | src/Player.cpp:24 | a point inside a circle is inside every larger circle around the same centre |
| `Numeric.WithinRadiusBounded` | src/Player.cpp:24 | a point inside the circle is within the radius along each axis |
| `Entities.FacingMatchesStep` | src/GameObject.cpp:23-26 | a unit step faces its own direction; a horizontal part wins over a vertical one; a zero step keeps the direction |
| `Entities.Movable.constructor` | src/GameObject.cpp:16 | a new entity stands at the given position, with the given speed, facing down (2) |
| `Entities.Movable.SetPosition` | src/GameObject.cpp:14 | `getX` and `getY` return the new position, and the facing is kept |
| `Entities.Movable.Move` | src/GameObject.cpp:20-27 | the position moves by the step times the speed, and the facing follows the step; a zero step changes nothing |
| `Players.GrownVision` | src/Player.cpp:18 | the grown radius is the sum, capped at 15, and is 15 exactly when the sum reaches 15 |
| `Players.GrownVisionMonotone` | src/Player.cpp:18 | a non-negative reward never shrinks a radius within the cap |
| `Players.Player.constructor` | src/Player.cpp:7 | a new player stands on the given cell, facing down, with the given vision radius |
| `Players.Player.CellX` | src/Player.cpp:12 | the cell column is the position truncated toward zero |
| `Players.Player.CellY` | src/Player.cpp:13 | the cell row is the position truncated toward zero |
| `Players.Player.IncreaseVision` | src/Player.cpp:18 | the radius grows by the amount and never exceeds 15 |
| `Players.Player.Move` | src/Player.cpp:21 | the player moves by whole cells and faces the step |
| `Players.Player.IsInVision` | src/Player.cpp:24 | a cell is seen exactly when it lies in the vision circle |
| `Players.Player.VisionBounded` | src/Player.cpp:24 | a seen cell is within the radius along each axis |
| `Players.Player.SeesOwnCell` | src/Player.cpp:24 | a player standing on a whole cell sees that cell |
| `Enemies.ThresholdSign` | src/Enemy.cpp:41-45 | 1 above the 0.1 threshold, -1 below its negative, 0 in between |
| `Enemies.PrimaryStepShape` | src/Enemy.cpp:36-46 | the first choice is at most one unit step, along the axis with the larger distance, toward the player; the fallback is along the other axis, also toward the player |
| `Enemies.ChaseStepSafe` | src/Enemy.cpp:49-68 | with no first choice there is no move; an open first choice is taken; a blocked first choice gives way to a non-zero open fallback, and otherwise to no move; a step taken is always an open one and never away from the player |
| `Enemies.RoundedCellCreeps` | src/Enemy.cpp:33-34 | a move of 0.05 along one axis changes the rounded coordinate by nothing or by that step |
| `Enemies.CellCreeps` | src/Enemy.cpp:67 | a move of 0.05 keeps the rounded cell, or moves it to the neighbour in the step's direction |
| `Enemies.Enemy.constructor` | src/Enemy.cpp:7 | a new enemy has speed 0.05, the given detection radius, 3.0 health, and is alive |
| `Enemies.Enemy.TakeDamage` | src/Enemy.cpp:15-18 | health drops by the amount; the enemy is dead once health reaches zero, and stays dead |
| `Enemies.Enemy.IsInDetectionRange` | src/Enemy.cpp:20-24 | the player is detected exactly when within the detection circle |
| `Enemies.Enemy.DetectionSymmetric` | src/Enemy.cpp:20-24 | detection is the same test seen from the player's side |
| `Enemies.Enemy.RoundedCell` | src/Enemy.cpp:33-34 | the rounded cell is within half a cell of the position |
| `Enemies.Enemy.ChooseStep` | src/Enemy.cpp:36-65 | the if-chain picks exactly the chase step `Chase` specifies: one unit step or none, and a step taken on a maze is one `canMove` allows |
| `Enemies.Enemy.MoveTowardPlayer` | src/Enemy.cpp:26-69 | the enemy moves by the chase step times 0.05 and faces it, and stays in the grid |
| `Enemies.Enemy.Creep` | src/Enemy.cpp:67 | one move of 0.05 keeps the rounded cell or moves it to the stepped-to neighbour |
| `Enemies.Enemy.MoveTowardPlayerFreely` | src/Enemy.cpp:71-73 | without a maze the first choice is always taken |
| `Riddles.Reward` | src/Riddle.cpp:18 | every reward lies between 1.5 and 3.0 |
| `Riddles.RewardOrdered` | src/Riddle.cpp:41-53 | easy riddles reward less than plain ones, and plain less than hard |
| `Riddles.MarkerColor` | src/Riddle.cpp:42-60 | every marker colour is a valid RGB colour |
| `Riddles.MarkerColorsTellApart` | src/Riddle.cpp:42-60 | plain riddles share one colour; an easy or hard colour names its difficulty and reward type uniquely, and differs from the plain colour |
| `Riddles.EarlyMarkerColor` | game.cpp:121-140 | the earlier revision's colours are valid RGB colours |
| `Riddles.EarlyColorsAreVisionColors` | game.cpp:121-140 | the earlier revision's colours are the current ones for the vision reward |
| `Riddles.Riddle.constructor` | src/Riddle.cpp:6-7 | a new riddle holds its question, answer, cell, reward type and difficulty, and is unsolved |
| `Riddles.Riddle.SetSolved` | src/Riddle.cpp:14 | `isSolved()` then answers the value set |
| `Riddles.Riddle.GetReward` | src/Riddle.cpp:18 | the reward is the one of its difficulty, between 1.5 and 3.0 |
| `Riddles.Riddle.GetMarkerColor` | src/Riddle.cpp:21 | the colour is the one of its difficulty and reward type, a valid RGB colour |
| `Leaderboards.Insert` | src/Game.cpp:111-112 | inserting an entry adds exactly that entry |
| `Leaderboards.SortedCons` | src/Game.h:15 | an entry no slower than the head of a sorted board can go in front |
| `Leaderboards.InsertSorted` | src/Game.cpp:112 | inserting into a sorted board keeps it sorted |
| `Leaderboards.SortByTime` | src/Game.cpp:99 | sorting gives a permutation in ascending time order |
| `Leaderboards.SortAppended` | src/Game.cpp:111-112 | sorting a sorted board with one entry appended is inserting that entry |
| `Leaderboards.Truncated` | src/Game.cpp:113 | `resize(10)` keeps the first ten entries of a longer board, and the whole of a shorter one |
| `Leaderboards.PrefixKeepsFastest` | src/Game.cpp:113 | the kept prefix of a sorted board is sorted, and no kept entry is slower than a dropped one |
| `Leaderboards.PrefixBeforeSuffix` | src/Game.cpp:113 | an entry in the prefix is no slower than one after it |
| `Leaderboards.Ranked` | src/Game.cpp:110-115 | the new board is sorted, holds at most ten entries drawn from the old board plus the new entry, and keeps the fastest of them |
| `Leaderboards.FasterEntryKept` | src/Game.cpp:110-115 | when one entry is dropped, an entry faster than another is kept |
| `Leaderboards.SlowestEntryDropped` | src/Game.cpp:110-115 | when one entry is dropped, the strictly slowest one is the one dropped |
| `Leaderboards.NewEntryKept` | src/Game.cpp:110-115 | on a full board, a time faster than the slowest makes the board |
| `Leaderboards.NewEntryDropped` | src/Game.cpp:110-115 | on a full board, a time slower than the slowest does not make the board |
| `Leaderboards.LastIsSlowest` | src/Game.cpp:112 | the last entry of a sorted board is its slowest |
| `Games.KindOf` | src/Game.cpp:81-83 | difficulty 0 makes an easy riddle, 2 a hard one, anything else a plain one |
| `Games.Placement` | src/Game.cpp:78-79 | `rand() % (size - 4) + 2` places a riddle between 2 and size-3 |
| `Games.PlacementReachesInnerCells` | src/Game.cpp:78-79 | every inner cell from 2 to size-3 can be chosen |
| `Games.MoveVector` | src/Game.cpp:229-233 | a key gives no move or one unit step |
| `Games.MoveKeysMatchWalls` | src/Game.cpp:229-233 | W/Up, D/Right, S/Down and A/Left step toward walls 0, 1, 2 and 3; no other key moves |
| `Games.ToLowerChar` | src/Game.cpp:240 | `tolower` maps A-Z to a-z and leaves every other character alone |
| `Games.ToLower` | src/Game.cpp:240 | the answer is lowered character by character, keeping its length |
| `Games.ToLowerIdempotent` | src/Game.cpp:240 | a lowered answer has no capitals, and lowering it again changes nothing |
| `Games.CreateRiddles` | src/Game.cpp:56-86 | the first `min(4, pool size)` pool entries become distinct new riddles, with their text and difficulty, at the rolled inner cells |
| `Games.StepOnMaze` | src/Game.cpp:235-236 | the player moves exactly when `canMove` allows it, then stands one cell further facing the step; otherwise nothing changes |
| `Games.NewMaze` | src/Game.cpp:209 | a fresh valid 30 by 20 maze that is still generating |
| `Games.SpawnPlayer` | src/Game.cpp:265 | a fresh player on the given cell with vision radius 3, facing down |
| `Games.Generate` | src/Game.cpp:264 | repeated steps keep the maze valid and use up one remaining step each, down to zero |
| `Games.Game.constructor` | src/Game.cpp:17-43 | the game starts on the Welcome screen with no maze or player and no riddle open; the saved scores are loaded sorted by time |
| `Games.Game.AddScore` | src/Game.cpp:110-115 | the board becomes the ranked board with the new entry; nothing else changes |
| `Games.Game.CheckForRiddle` | src/Game.cpp:122-128 | on an unsolved riddle's cell, the first such riddle (lowest index) opens with an empty answer; otherwise state, index and answer are kept |
| `Games.Game.StartNewGame` | src/Game.cpp:208-209 | a fresh generating maze, no player, the clock at zero, the Generating state |
| `Games.Game.BeginPlay` | src/Game.cpp:265 | after generation, a player on the start cell and fresh riddles; the Playing state |
| `Games.Game.AdvanceGeneration` | src/Game.cpp:263-266 | five generator steps; when generation ends the player is placed at (0, 0) and play begins |
| `Games.Game.UpdateGame` | src/Game.cpp:262-268 | a generating game takes five steps; while the maze is still generating no player or riddles appear, and once it is done a fresh player with vision 3 stands on the start cell, the riddles are placed and play begins; a playing game records the clock; any other state is left alone |
| `Games.Game.CheckForExit` | src/Game.cpp:236 | reaching the finish gives Victory and records the time on the leaderboard; otherwise nothing changes |
| `Games.Game.AfterMove` | src/Game.cpp:236 | after a move, the first unsolved riddle under the player opens with an empty answer, and with no such riddle the index and answer are kept; the finish gives Victory and records the time, and elsewhere the state is RiddleActive exactly when a riddle opened |
| `Games.Game.TryMove` | src/Game.cpp:229-236 | a move key moves the player one cell, facing the step, exactly when `canMove` allows it; then the first unsolved riddle there opens, and the finish wins and records the time (`MoveOutcome`); a refused move keeps the player, state, board, index, answer and clock |
| `Games.Game.HandlePlayingKey` | src/Game.cpp:228-236 | G ends the game and keeps the player, board, index and answer; any other key has exactly the outcome of a move attempt (`MoveOutcome`); the clock is kept |
| `Games.Game.ActiveRiddleInRange` | src/Game.cpp:241 | while a riddle is open, its index is in range |
| `Games.Game.HandleRiddleKey` | src/Game.cpp:237-245 | Escape closes the box; Enter with the right lower-cased answer solves the riddle, grows the vision by its reward and resumes play, and always clears the answer; Backspace drops the last character; other keys do nothing; no other riddle changes, and the board, index and clock are kept |
| `Games.Game.TextEntered` | src/Game.cpp:251-255 | in an open riddle, a printable character is appended while the answer is shorter than 30, and otherwise the answer is kept; nothing else changes |
| `Games.Game.HandleMenuKey` | src/Game.cpp:222-248 | Welcome: Space starts a game and L shows the board; Leaderboard: Escape goes back; Victory or GameOver: Space starts again and Escape goes to Welcome; starting gives a fresh generating maze, no player and a zero clock, and every other key keeps maze, player and clock; board, riddles, index and answer are always kept |
| `Games.Game.HandleKey` | src/Game.cpp:221-249 | dispatches a key press to its state's handler and keeps the invariant; a generating game ignores keys |

## Left out

- Rendering: `draw`, `drawWithVision`, the `show*` screens, fonts and window handling are not modelled.
- The event loop: polling and closing the window are not modelled. So Escape on the Welcome screen, which closes the window, leaves the state unchanged here.
- Leaderboard file I/O: `loadScores` reads the board that is passed to the constructor as `saved`, and `saveScores` is not modelled.
- `sf::Clock`: the elapsed time is the `seconds` parameter of `UpdateGame`.
- `rand()` and `srand`: each random number is a parameter (`roll`, `rolls`, `placements`).
- Floating point: `float` positions, speeds, radii and rewards are modelled as exact reals.
- `CELL_SIZE` and `cellSize`, which only scale drawing, are not modelled.
- Pointers and `delete`: objects are Dafny references. After `startNewGame` the old player pointer is left dangling; here it is `null`.
- The riddle text table in `createRiddles` becomes the `pool` parameter.
- The enemy update in the game loop is not modelled; `Enemy.cpp` itself is.
- `Enemy::moveTowardPlayer`'s `mazeCol` and `mazeRow` parameters are unused and are left out.
- Enemies.Enemy.MoveTowardPlayer: requires the enemy's rounded cell to lie inside the maze. The source calls `canMove` on any cell, and a negative cell would index outside the grid.
- Leaderboards.Ranked: `std::sort` is not stable and fixes no order among equal times. The model inserts a new entry after equal times, and its contract states only sortedness, membership and keeping the fastest.
- Games.Game.HandleKey: its contract states only the invariant and the Generating case. The per-state handlers it calls carry the detailed contracts.
- The `Maze` keeps the visited flags and walls of its cells in two arrays instead of a grid of `Cell` objects. The `Cell` class is modelled on its own, and `Maze.RemoveWall` states the same wall removal on the arrays.
- Getters that only read a field have no contract of their own: `Player::getVisionRadius`, `MovableEntity::getDirection`, `GameObject::getX`/`getY` (`Movable.GetX`/`GetY`), `Cell::isVisited`, `getX` and `getY` (`Cell.IsVisited`, `Cell.GetX`, `Cell.GetY`), the `Riddle` getters for question, answer, solved flag and reward type (`Riddle.GetQuestion`, `GetAnswer`, `IsSolved`, `GetRewardType`), and `Enemy`'s getters. `SetVisited`, `SetSolved` and `SetPosition` state their effect through them.
- `maze.cpp`'s `main`, its reset and its copy assignment are not modelled.
- `game.cpp`'s Enter handler reads `riddles[currentRiddleIndex]` before checking the index. The model follows `src/Game.cpp:241-243`, which checks first. On reachable states the two agree (`ActiveRiddleInRange`).
