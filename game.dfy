/**
 * The game's rules, apart from drawing and the event loop: the states the
 * game moves through, the generation of a new maze a few steps per
 * update, the placement of riddles once the maze is done, movement on the
 * maze, stepping onto riddles and answering them, and recording a finish
 * time on the leaderboard.
 */
module Games {
  import opened Grid
  import opened Numeric
  import opened Entities
  import opened Players
  import opened Riddles
  import opened Leaderboards
  import opened Mazes

  datatype GameState = Welcome | Generating | Playing | RiddleActive | GameOver | Victory | LeaderboardView

  /** The maze is COLS cells wide and ROWS cells high. */
  const COLS: int := 30
  const ROWS: int := 20
  /** How many riddles a new game places. */
  const RIDDLE_COUNT: nat := 4
  /** The longest answer the player can type. */
  const MAX_ANSWER: nat := 30
  /** How many generator steps each update of a generating game performs. */
  const STEPS_PER_UPDATE: nat := 5

  /** One entry of the riddle pool: the text of the riddle, its answer and its difficulty 0, 1 or 2. */
  datatype RiddleData = RiddleData(question: string, answer: string, difficulty: int)

  /** The keys the game reacts to; every other key is OtherKey. */
  datatype Key = W | Up | S | Down | A | Left | D | Right | G | Space | L | Escape | Enter | Backspace | OtherKey

  function Min(a: int, b: int): int
  {
    if a < b then a else b
  }

  function Max0(a: int): nat
  {
    if a < 0 then 0 else a
  }

  /** The riddle class a pool entry becomes: difficulty 0 is easy, 2 is hard, anything else the base riddle. */
  function KindOf(difficulty: int): (k: Kind)
    ensures k == Easy <==> difficulty == 0
    ensures k == Hard <==> difficulty == 2
    ensures k == Plain <==> difficulty != 0 && difficulty != 2
  {
    if difficulty == 0 then Easy else if difficulty == 2 then Hard else Plain
  }

  /**
   * The coordinate a riddle gets along a dimension of `size` cells from the
   * random value `roll`: never on the two outermost cells at either end.
   */
  function Placement(roll: nat, size: int): (c: int)
    requires size > 4
    ensures 2 <= c <= size - 3
  {
    roll % (size - 4) + 2
  }

  /** Every cell that is not on the two outermost rings can receive a riddle. */
  lemma PlacementReachesInnerCells(size: int, c: int)
    requires size > 4 && 2 <= c <= size - 3
    ensures Placement(c - 2, size) == c
  {
  }

  /** The move a key asks for while playing: W/Up, D/Right, S/Down and A/Left; any other key asks for none. */
  function MoveVector(key: Key): (v: (int, int))
    ensures v == (0, 0) || IsUnitStep(v.0, v.1)
  {
    if key == W || key == Up then (0, -1)
    else if key == S || key == Down then (0, 1)
    else if key == A || key == Left then (-1, 0)
    else if key == D || key == Right then (1, 0)
    else (0, 0)
  }

  /** The movement keys step toward walls 0 (top), 1 (right), 2 (bottom) and 3 (left); no other key moves. */
  lemma MoveKeysMatchWalls(key: Key)
    ensures key == W || key == Up ==> MoveVector(key) == (Dx(0), Dy(0))
    ensures key == D || key == Right ==> MoveVector(key) == (Dx(1), Dy(1))
    ensures key == S || key == Down ==> MoveVector(key) == (Dx(2), Dy(2))
    ensures key == A || key == Left ==> MoveVector(key) == (Dx(3), Dy(3))
    ensures MoveVector(key) == (0, 0) <==> key !in {W, Up, D, Right, S, Down, A, Left}
  {
  }

  /** tolower on one character: upper-case ASCII letters become lower case, everything else stays. */
  function ToLowerChar(c: char): (r: char)
    ensures 'A' <= c <= 'Z' ==> 'a' <= r <= 'z' && r as int == c as int + 32
    ensures !('A' <= c <= 'Z') ==> r == c
  {
    if 'A' <= c <= 'Z' then (c as int + 32) as char else c
  }

  /** The typed answer with every character passed through tolower. */
  function ToLower(s: string): (r: string)
    ensures |r| == |s|
    ensures forall i | 0 <= i < |s| :: r[i] == ToLowerChar(s[i])
  {
    seq(|s|, i requires 0 <= i < |s| => ToLowerChar(s[i]))
  }

  /** Lower-casing leaves no upper-case letter, so doing it twice is doing it once. */
  lemma ToLowerIdempotent(s: string)
    ensures forall i | 0 <= i < |s| :: !('A' <= ToLower(s)[i] <= 'Z')
    ensures ToLower(ToLower(s)) == ToLower(s)
  {
    var once := ToLower(s);
    forall i | 0 <= i < |s|
      ensures ToLower(once)[i] == once[i]
    {
      assert !('A' <= once[i] <= 'Z');
    }
  }

  /** The character codes the answer box accepts: printable ASCII. */
  predicate Printable(code: int)
  {
    32 <= code < 128
  }

  /**
   * The riddles a new game places: the first RIDDLE_COUNT entries of the
   * pool (fewer if the pool is shorter), each unsolved, of the class its
   * difficulty gives, with the vision reward, on the cell the i-th pair of
   * random values gives.
   */
  ghost predicate RiddlesFrom(rs: seq<Riddle>, pool: seq<RiddleData>, placements: seq<(nat, nat)>)
    reads rs
  {
    && |rs| == Min(RIDDLE_COUNT, |pool|) && |rs| <= |placements|
    && forall i | 0 <= i < |rs| ::
         && rs[i].question == pool[i].question && rs[i].answer == pool[i].answer
         && rs[i].kind == KindOf(pool[i].difficulty) && rs[i].rewardType == VisionReward
         && rs[i].x == Placement(placements[i].0, COLS) && rs[i].y == Placement(placements[i].1, ROWS)
         && !rs[i].solved
  }

  /** Builds the riddles of a new game from the pool and the random values `placements`. */
  method CreateRiddles(pool: seq<RiddleData>, placements: seq<(nat, nat)>) returns (rs: seq<Riddle>)
    requires |placements| >= Min(RIDDLE_COUNT, |pool|)
    ensures RiddlesFrom(rs, pool, placements)
    ensures forall i | 0 <= i < |rs| :: fresh(rs[i])
    ensures Distinct(rs)
    ensures forall i | 0 <= i < |rs| :: 2 <= rs[i].x <= COLS - 3 && 2 <= rs[i].y <= ROWS - 3
  {
    rs := [];
    var i := 0;
    while i < RIDDLE_COUNT && i < |pool|
      invariant 0 <= i <= Min(RIDDLE_COUNT, |pool|) && |rs| == i
      invariant forall k | 0 <= k < i :: fresh(rs[k])
      invariant Distinct(rs)
      invariant forall k | 0 <= k < i ::
                  && rs[k].question == pool[k].question && rs[k].answer == pool[k].answer
                  && rs[k].kind == KindOf(pool[k].difficulty) && rs[k].rewardType == VisionReward
                  && rs[k].x == Placement(placements[k].0, COLS) && rs[k].y == Placement(placements[k].1, ROWS)
                  && !rs[k].solved
    {
      var posX := placements[i].0 % (COLS - 4) + 2;
      var posY := placements[i].1 % (ROWS - 4) + 2;
      var riddle: Riddle;
      if pool[i].difficulty == 0 {
        riddle := new Riddle(pool[i].question, pool[i].answer, posX, posY, VisionReward, Easy);
      } else if pool[i].difficulty == 2 {
        riddle := new Riddle(pool[i].question, pool[i].answer, posX, posY, VisionReward, Hard);
      } else {
        riddle := new Riddle(pool[i].question, pool[i].answer, posX, posY, VisionReward, Plain);
      }
      rs := rs + [riddle];
      i := i + 1;
    }
  }

  /** Whether riddle `i` of `rs` is unsolved and sits on the cell player `p` stands on. */
  ghost predicate RiddleAt(p: Player, rs: seq<Riddle>, i: int)
    reads p, p.body, rs
    requires 0 <= i < |rs|
  {
    !rs[i].solved && p.CellX() == rs[i].x && p.CellY() == rs[i].y
  }

  /** Some unsolved riddle of `rs` sits on the cell player `p` stands on. */
  ghost predicate OnSomeRiddle(p: Player, rs: seq<Riddle>)
    reads p, p.body, rs
  {
    exists i | 0 <= i < |rs| :: RiddleAt(p, rs, i)
  }

  /** Riddle `k` is the first unsolved riddle of `rs` on the cell player `p` stands on. */
  ghost predicate FirstRiddleAt(p: Player, rs: seq<Riddle>, k: int)
    reads p, p.body, rs
  {
    && 0 <= k < |rs| && RiddleAt(p, rs, k)
    && forall j | 0 <= j < k :: !RiddleAt(p, rs, j)
  }

  /** No riddle object occurs twice, so solving one riddle leaves the others as they were. */
  predicate Distinct(rs: seq<Riddle>)
  {
    forall i, j | 0 <= i < j < |rs| :: rs[i] != rs[j]
  }

  /** Player `p` stands exactly on a cell of a maze of COLS x ROWS cells. */
  ghost predicate OnCell(p: Player)
    reads p, p.body
  {
    && p.Valid()
    && p.body.x == p.CellX() as real && p.body.y == p.CellY() as real
    && InGrid(COLS, ROWS, Pos(p.CellX(), p.CellY()))
  }

  /**
   * Moves player `p` one step by (dx, dy) when maze `m` has an open
   * passage that way, and leaves the player where it is otherwise.
   */
  method StepOnMaze(m: Maze, p: Player, dx: int, dy: int) returns (moved: bool)
    requires m.Valid() && m.cols == COLS && m.rows == ROWS && OnCell(p)
    modifies p.body
    ensures OnCell(p)
    ensures moved == old(m.CanMove(p.CellX(), p.CellY(), dx, dy))
    ensures moved ==> && p.CellX() == old(p.CellX()) + dx && p.CellY() == old(p.CellY()) + dy
                      && p.body.direction == Facing(dx, dy, old(p.body.direction))
    ensures !moved ==> unchanged(p.body)
  {
    var cx, cy := p.CellX(), p.CellY();
    moved := m.CanMove(cx, cy, dx, dy);
    if moved {
      p.Move(dx, dy);
      TruncShift(cx, dx);
      TruncShift(cy, dy);
    }
  }

  /** A new maze of COLS x ROWS cells, ready to be generated. */
  method NewMaze() returns (m: Maze)
    ensures fresh(m) && fresh(m.visited) && fresh(m.walls)
    ensures m.Valid() && m.cols == COLS && m.rows == ROWS && m.generating
    ensures m.StepsLeft() == 2 * (COLS * ROWS) - 1
  {
    m := new Maze(COLS, ROWS);
  }

  /** A player on cell (x, y) of the maze with the default vision radius. */
  method SpawnPlayer(x: int, y: int) returns (p: Player)
    requires InGrid(COLS, ROWS, Pos(x, y))
    ensures fresh(p) && fresh(p.body) && OnCell(p)
    ensures p.CellX() == x && p.CellY() == y && p.visionRadius == DEFAULT_VISION && p.body.direction == 2
  {
    p := new Player(x, y, DEFAULT_VISION);
  }

  /** Advances generation of maze `m` by one step per value of `rolls`. */
  method Generate(m: Maze, rolls: seq<nat>)
    requires m.Valid()
    modifies m, m.visited, m.walls
    ensures m.Valid()
    ensures m.StepsLeft() == Max0(old(m.StepsLeft()) - |rolls|)
  {
    assert m.IsGenerating() ==> m.StepsLeft() > 0;
    ghost var left0 := m.StepsLeft();
    var i := 0;
    while i < |rolls|
      invariant 0 <= i <= |rolls|
      invariant m.Valid()
      invariant m.StepsLeft() == Max0(left0 - i)
    {
      assert m.IsGenerating() ==> m.StepsLeft() > 0;
      m.Step(rolls[i]);
      i := i + 1;
    }
  }

  class Game {
    var state: GameState
    var maze: Maze?
    var player: Player?
    var riddles: seq<Riddle>
    var leaderboard: seq<Entry>
    var currentRiddleIndex: int
    var playerAnswer: string
    var elapsedTime: real

    /** The maze and its two arrays, when there is a maze. */
    ghost function MazeParts(): set<object>
      reads this
    {
      if maze == null then {} else {maze, maze.visited, maze.walls}
    }

    /** The player and its movable body, when there is a player. */
    ghost function PlayerParts(): set<object>
      reads this
    {
      if player == null then {} else {player, player.body}
    }

    /** The maze, when there is one, keeps its own invariant. */
    ghost predicate MazeOk()
      reads this, MazeParts()
    {
      maze != null ==> maze.Valid()
    }

    /**
     * The rest of the game's invariant: the maze has COLS x ROWS cells; it
     * exists while it is generated and while the game is played; play
     * starts only on a finished maze, with the player on one of its cells;
     * a riddle is active only when the remembered index names one; no
     * riddle object occurs twice; the typed answer never grows beyond
     * MAX_ANSWER characters.
     */
    ghost predicate Consistent()
      reads this, MazeParts(), PlayerParts()
    {
      && (maze != null ==> maze.Shape() && maze.cols == COLS && maze.rows == ROWS)
      && (state == Generating ==> maze != null)
      && (state == Playing || state == RiddleActive ==> maze != null && !maze.generating && player != null && OnCell(player))
      && (state == RiddleActive ==> 0 <= currentRiddleIndex < |riddles|)
      && Distinct(riddles)
      && |playerAnswer| <= MAX_ANSWER
    }

    /** The game's invariant. */
    ghost predicate Valid()
      reads this, MazeParts(), PlayerParts()
    {
      MazeOk() && Consistent()
    }

    /** A new game on the welcome screen, with the saved scores read in and sorted. */
    constructor (saved: seq<Entry>)
      ensures Valid()
      ensures state == Welcome && maze == null && player == null && riddles == []
      ensures currentRiddleIndex == -1 && playerAnswer == [] && elapsedTime == 0.0
      ensures Sorted(leaderboard) && multiset(leaderboard) == multiset(saved)
    {
      state, maze, player, riddles := Welcome, null, null, [];
      currentRiddleIndex, playerAnswer, elapsedTime := -1, [], 0.0;
      leaderboard := SortByTime(saved);
    }

    /** Records a finish time: the entry is added, the board sorted by time and cut to CAPACITY entries. */
    method AddScore(name: string, time: real)
      modifies this
      ensures leaderboard == Ranked(old(leaderboard), Entry(name, time))
      ensures state == old(state) && maze == old(maze) && player == old(player) && riddles == old(riddles)
      ensures currentRiddleIndex == old(currentRiddleIndex) && playerAnswer == old(playerAnswer)
      ensures elapsedTime == old(elapsedTime)
    {
      var board := leaderboard + [Entry(name, time)];
      board := SortByTime(board);
      if |board| > CAPACITY {
        board := board[..CAPACITY];
      }
      leaderboard := board;
    }

    /**
     * Opens the first unsolved riddle on the player's cell: the game shows
     * it, remembers its index and empties the answer box. With no such
     * riddle nothing changes.
     */
    method CheckForRiddle()
      requires player != null
      modifies this
      ensures maze == old(maze) && player == old(player) && riddles == old(riddles)
      ensures leaderboard == old(leaderboard) && elapsedTime == old(elapsedTime)
      ensures OnSomeRiddle(player, riddles) ==>
                state == RiddleActive && playerAnswer == [] && FirstRiddleAt(player, riddles, currentRiddleIndex)
      ensures !OnSomeRiddle(player, riddles) ==>
                state == old(state) && currentRiddleIndex == old(currentRiddleIndex) && playerAnswer == old(playerAnswer)
    {
      var i := 0;
      while i < |riddles|
        invariant 0 <= i <= |riddles|
        invariant unchanged(this)
        invariant forall j | 0 <= j < i :: !RiddleAt(player, riddles, j)
      {
        var riddleNotSolved := !riddles[i].IsSolved();
        var playerOnRiddle := player.CellX() == riddles[i].x && player.CellY() == riddles[i].y;
        if riddleNotSolved && playerOnRiddle {
          state, currentRiddleIndex, playerAnswer := RiddleActive, i, [];
          assert FirstRiddleAt(player, riddles, i);
          return;
        }
        i := i + 1;
      }
    }

    /** Throws away the old maze and starts generating a new one. */
    method StartNewGame()
      requires Consistent()
      modifies this
      ensures Valid()
      ensures state == Generating && fresh(maze) && maze.generating && player == null && elapsedTime == 0.0
      ensures maze.StepsLeft() == 2 * (COLS * ROWS) - 1
      ensures riddles == old(riddles) && leaderboard == old(leaderboard)
      ensures currentRiddleIndex == old(currentRiddleIndex) && playerAnswer == old(playerAnswer)
    {
      player, state, elapsedTime := null, Generating, 0.0;
      maze := NewMaze();
    }

    /** Play begins on the finished maze: the player appears on the start cell and the riddles are placed. */
    method BeginPlay(pool: seq<RiddleData>, placements: seq<(nat, nat)>)
      requires Consistent() && maze != null && !maze.generating
      requires |placements| >= Min(RIDDLE_COUNT, |pool|)
      modifies this
      ensures Consistent()
      ensures state == Playing && fresh(player) && player.visionRadius == DEFAULT_VISION
      ensures player.CellX() == maze.startX && player.CellY() == maze.startY
      ensures RiddlesFrom(riddles, pool, placements)
      ensures maze == old(maze) && leaderboard == old(leaderboard) && elapsedTime == old(elapsedTime)
      ensures currentRiddleIndex == old(currentRiddleIndex) && playerAnswer == old(playerAnswer)
    {
      player := SpawnPlayer(maze.GetStartX(), maze.GetStartY());
      riddles := CreateRiddles(pool, placements);
      state := Playing;
    }

    /**
     * The generating part of an update: the maze takes one step per value
     * of `rolls`, and once it is done play begins.
     */
    method AdvanceGeneration(rolls: seq<nat>, pool: seq<RiddleData>, placements: seq<(nat, nat)>)
      requires Valid() && state == Generating
      requires |placements| >= Min(RIDDLE_COUNT, |pool|)
      modifies this, MazeParts()
      ensures Valid() && maze == old(maze)
      ensures maze.StepsLeft() == Max0(old(maze.StepsLeft()) - |rolls|)
      ensures leaderboard == old(leaderboard) && elapsedTime == old(elapsedTime)
      ensures currentRiddleIndex == old(currentRiddleIndex) && playerAnswer == old(playerAnswer)
      ensures maze.generating ==> state == Generating && player == old(player) && riddles == old(riddles)
      ensures !maze.generating ==>
                && state == Playing && fresh(player)
                && player.CellX() == 0 && player.CellY() == 0 && player.visionRadius == DEFAULT_VISION
                && RiddlesFrom(riddles, pool, placements)
    {
      Generate(maze, rolls);
      if !maze.IsGenerating() {
        BeginPlay(pool, placements);
      }
    }

    /**
     * One update of the game. While generating, the maze takes
     * STEPS_PER_UPDATE steps (`rolls` stands for the values rand() gives
     * them), after which play may begin. While playing the elapsed time
     * becomes `seconds`, the reading of the game's clock.
     */
    method UpdateGame(rolls: seq<nat>, pool: seq<RiddleData>, placements: seq<(nat, nat)>, seconds: real)
      requires Valid()
      requires |rolls| >= STEPS_PER_UPDATE && |placements| >= Min(RIDDLE_COUNT, |pool|)
      modifies this, MazeParts()
      ensures Valid()
      ensures maze == old(maze) && leaderboard == old(leaderboard)
      ensures currentRiddleIndex == old(currentRiddleIndex) && playerAnswer == old(playerAnswer)
      ensures old(state) == Generating ==>
                && maze.StepsLeft() == Max0(old(maze.StepsLeft()) - STEPS_PER_UPDATE as int)
                && state == (if maze.generating then Generating else Playing)
      ensures old(state) == Generating && maze.generating ==> player == old(player) && riddles == old(riddles)
      ensures old(state) == Generating && !maze.generating ==>
                && fresh(player) && player.visionRadius == DEFAULT_VISION
                && player.CellX() == maze.startX && player.CellY() == maze.startY
                && RiddlesFrom(riddles, pool, placements)
      ensures state == Playing ==> elapsedTime == seconds
      ensures old(state) != Generating ==>
                && state == old(state) && player == old(player) && riddles == old(riddles)
                && unchanged(MazeParts())
      ensures state != Playing ==> elapsedTime == old(elapsedTime)
    {
      if state == Generating {
        AdvanceGeneration(rolls[..STEPS_PER_UPDATE], pool, placements);
      }
      if state == Playing {
        elapsedTime := seconds;
      }
    }

    /** The player stands on the maze's finish cell. */
    ghost predicate AtFinish()
      reads this, PlayerParts()
      requires maze != null
    {
      player != null && player.CellX() == maze.finishX && player.CellY() == maze.finishY
    }

    /** Reaching the finish cell wins the game and records the elapsed time; elsewhere nothing changes. */
    method CheckForExit()
      requires Consistent() && (state == Playing || state == RiddleActive)
      modifies this
      ensures Consistent()
      ensures maze == old(maze) && player == old(player) && riddles == old(riddles) && elapsedTime == old(elapsedTime)
      ensures AtFinish() ==> state == Victory && leaderboard == Ranked(old(leaderboard), Entry("Player", elapsedTime))
      ensures !AtFinish() ==> state == old(state) && leaderboard == old(leaderboard)
      ensures currentRiddleIndex == old(currentRiddleIndex) && playerAnswer == old(playerAnswer)
    {
      var reachedExit := player.CellX() == maze.GetFinishX() && player.CellY() == maze.GetFinishY();
      if reachedExit {
        state := Victory;
        AddScore("Player", elapsedTime);
      }
    }

    /**
     * What follows a successful move: a riddle on the new cell opens, and
     * reaching the finish wins the game and records the elapsed time.
     */
    method AfterMove()
      requires Consistent() && state == Playing
      modifies this
      ensures Consistent()
      ensures maze == old(maze) && player == old(player) && riddles == old(riddles) && elapsedTime == old(elapsedTime)
      ensures AtFinish() ==> state == Victory && leaderboard == Ranked(old(leaderboard), Entry("Player", elapsedTime))
      ensures !AtFinish() ==>
                state == (if OnSomeRiddle(player, riddles) then RiddleActive else Playing) && leaderboard == old(leaderboard)
      ensures OnSomeRiddle(player, riddles) ==> playerAnswer == [] && FirstRiddleAt(player, riddles, currentRiddleIndex)
      ensures !OnSomeRiddle(player, riddles) ==>
                currentRiddleIndex == old(currentRiddleIndex) && playerAnswer == old(playerAnswer)
    {
      CheckForRiddle();
      label Checked:
      CheckForExit();
      assert OnSomeRiddle(player, riddles) == old@Checked(OnSomeRiddle(player, riddles));
      assert forall k :: FirstRiddleAt(player, riddles, k) == old@Checked(FirstRiddleAt(player, riddles, k));
    }

    /**
     * What a movement attempt with `key` leaves behind, compared with the
     * game before it. When the maze allows the step, the player stands one
     * cell further and faces the step; the first unsolved riddle on the new
     * cell opens with an empty answer box; and the finish cell wins the game
     * and records the time. A refused step changes nothing.
     */
    twostate predicate MoveOutcome(key: Key)
      reads this, MazeParts(), PlayerParts(), riddles
      requires old(Valid()) && old(state) == Playing
      requires maze == old(maze) && player == old(player) && riddles == old(riddles)
    {
      var v := MoveVector(key);
      if old(maze.CanMove(player.CellX(), player.CellY(), v.0, v.1)) then
        && player.CellX() == old(player.CellX()) + v.0 && player.CellY() == old(player.CellY()) + v.1
        && player.body.direction == Facing(v.0, v.1, old(player.body.direction))
        && (if OnSomeRiddle(player, riddles)
            then playerAnswer == [] && FirstRiddleAt(player, riddles, currentRiddleIndex)
            else currentRiddleIndex == old(currentRiddleIndex) && playerAnswer == old(playerAnswer))
        && if AtFinish() then state == Victory && leaderboard == Ranked(old(leaderboard), Entry("Player", elapsedTime))
           else state == (if OnSomeRiddle(player, riddles) then RiddleActive else Playing) && leaderboard == old(leaderboard)
      else
        && unchanged(player.body) && state == Playing && leaderboard == old(leaderboard)
        && currentRiddleIndex == old(currentRiddleIndex) && playerAnswer == old(playerAnswer)
    }

    /**
     * A movement attempt while playing: the player moves one cell when the
     * maze allows that step, and what follows the move happens.
     */
    method TryMove(key: Key)
      requires Valid() && state == Playing && key != G
      modifies this, player.body
      ensures Valid()
      ensures maze == old(maze) && player == old(player) && riddles == old(riddles) && elapsedTime == old(elapsedTime)
      ensures MoveOutcome(key)
    {
      var v := MoveVector(key);
      var canMove := StepOnMaze(maze, player, v.0, v.1);
      if canMove {
        AfterMove();
      }
    }

    /**
     * A key pressed while playing: G gives up the game, and every other key
     * is a movement attempt. G asks for no move, and the maze allows no
     * move of length zero, so giving up never moves the player.
     */
    method HandlePlayingKey(key: Key)
      requires Valid() && state == Playing
      modifies this, player.body
      ensures Valid()
      ensures maze == old(maze) && player == old(player) && riddles == old(riddles) && elapsedTime == old(elapsedTime)
      ensures key == G ==>
                && state == GameOver && unchanged(player.body) && leaderboard == old(leaderboard)
                && currentRiddleIndex == old(currentRiddleIndex) && playerAnswer == old(playerAnswer)
      ensures key != G ==> MoveOutcome(key)
    {
      if key == G {
        state := GameOver;
      } else {
        TryMove(key);
      }
    }

    /** While a riddle is shown the remembered index always names a riddle, so reading that riddle is always in bounds. */
    lemma ActiveRiddleInRange()
      requires Consistent() && state == RiddleActive
      ensures 0 <= currentRiddleIndex < |riddles|
    {
    }

    /**
     * A key pressed while a riddle is shown. Escape returns to play. Enter
     * checks the lower-cased answer: a right answer solves the riddle,
     * widens the player's vision by its reward and returns to play; the
     * answer box is emptied either way. Backspace deletes the last
     * character, if any. Other keys do nothing.
     */
    method HandleRiddleKey(key: Key)
      requires Consistent() && state == RiddleActive
      modifies this, player, riddles
      ensures Consistent()
      ensures maze == old(maze) && player == old(player) && riddles == old(riddles)
      ensures leaderboard == old(leaderboard) && currentRiddleIndex == old(currentRiddleIndex)
      ensures elapsedTime == old(elapsedTime)
      ensures key == Escape ==> state == Playing && playerAnswer == old(playerAnswer)
      ensures key == Enter ==>
                var r := riddles[currentRiddleIndex];
                && playerAnswer == []
                && (ToLower(old(playerAnswer)) == r.answer ==>
                      r.solved && state == Playing
                      && player.visionRadius == GrownVision(old(player.visionRadius), Reward(r.kind)))
                && (ToLower(old(playerAnswer)) != r.answer ==>
                      state == RiddleActive && player.visionRadius == old(player.visionRadius)
                      && r.solved == old(r.solved))
      ensures key == Backspace ==>
                state == RiddleActive
                && playerAnswer == if old(playerAnswer) == [] then [] else old(playerAnswer)[..|old(playerAnswer)| - 1]
      ensures key != Escape && key != Enter && key != Backspace ==>
                state == RiddleActive && playerAnswer == old(playerAnswer)
      ensures key != Enter ==> player.visionRadius == old(player.visionRadius)
      ensures forall i | 0 <= i < |riddles| && (key != Enter || i != currentRiddleIndex) ::
                riddles[i].solved == old(riddles[i].solved)
    {
      if key == Escape {
        state := Playing;
      } else if key == Enter {
        var answer := ToLower(playerAnswer);
        var validIndex := 0 <= currentRiddleIndex < |riddles|;
        var correctAnswer := validIndex && answer == riddles[currentRiddleIndex].GetAnswer();
        if validIndex && correctAnswer {
          riddles[currentRiddleIndex].SetSolved(true);
          player.IncreaseVision(riddles[currentRiddleIndex].GetReward());
          state := Playing;
        }
        playerAnswer := [];
      } else if key == Backspace && playerAnswer != [] {
        playerAnswer := playerAnswer[..|playerAnswer| - 1];
      }
    }

    /** A character typed while a riddle is shown joins the answer when it is printable ASCII and the answer is shorter than MAX_ANSWER. */
    method TextEntered(code: int)
      requires Consistent()
      modifies this
      ensures Consistent()
      ensures playerAnswer ==
                if old(state) == RiddleActive && Printable(code) && |old(playerAnswer)| < MAX_ANSWER
                then old(playerAnswer) + [code as char] else old(playerAnswer)
      ensures state == old(state) && maze == old(maze) && player == old(player) && riddles == old(riddles)
      ensures leaderboard == old(leaderboard) && currentRiddleIndex == old(currentRiddleIndex)
      ensures elapsedTime == old(elapsedTime)
    {
      if state == RiddleActive {
        var isPrintable := code < 128 && code >= 32;
        var notTooLong := |playerAnswer| < MAX_ANSWER;
        if isPrintable && notTooLong {
          playerAnswer := playerAnswer + [code as char];
        }
      }
    }

    /**
     * A key pressed on one of the menu screens. On the welcome screen Space
     * starts a game and L shows the leaderboard; Escape leaves the
     * leaderboard; after a win or a loss Space starts again and Escape
     * returns to the welcome screen.
     */
    method HandleMenuKey(key: Key)
      requires Valid() && state in {Welcome, LeaderboardView, Victory, GameOver}
      modifies this
      ensures Valid()
      ensures old(state) == Welcome ==>
                if key == Space then state == Generating
                else if key == L then state == LeaderboardView
                else unchanged(this)
      ensures old(state) == LeaderboardView ==>
                state == (if key == Escape then Welcome else LeaderboardView)
      ensures old(state) == Victory || old(state) == GameOver ==>
                if key == Space then state == Generating
                else if key == Escape then state == Welcome
                else unchanged(this)
      ensures key == Space && old(state) != LeaderboardView ==>
                && fresh(maze) && maze.generating && maze.StepsLeft() == 2 * (COLS * ROWS) - 1
                && player == null && elapsedTime == 0.0
      ensures !(key == Space && old(state) != LeaderboardView) ==>
                maze == old(maze) && player == old(player) && elapsedTime == old(elapsedTime)
      ensures leaderboard == old(leaderboard) && riddles == old(riddles)
      ensures currentRiddleIndex == old(currentRiddleIndex) && playerAnswer == old(playerAnswer)
    {
      if state == Welcome {
        if key == Space {
          StartNewGame();
        } else if key == L {
          state := LeaderboardView;
        }
      } else if state == LeaderboardView {
        if key == Escape {
          state := Welcome;
        }
      } else if key == Space {
        StartNewGame();
      } else if key == Escape {
        state := Welcome;
      }
    }

    /** A key pressed in any state; keys while the maze is generated are ignored. */
    method HandleKey(key: Key)
      requires Valid()
      modifies this, PlayerParts(), riddles
      ensures Valid()
      ensures old(state) == Generating ==> unchanged(this)
    {
      if state in {Welcome, LeaderboardView, Victory, GameOver} {
        HandleMenuKey(key);
      } else if state == Playing {
        HandlePlayingKey(key);
      } else if state == RiddleActive {
        HandleRiddleKey(key);
      }
    }
  }
}
