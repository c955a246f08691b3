/** The game state and its tick. The game keeps the snake (head first), its
    direction, the food cell, the score, the best score of the session and
    whether a game is running; a timer advances it one tick at a time. */
module Game {
  import opened Grid
  import opened Controls
  import opened Food

  /** Points for each piece of food eaten. */
  const FoodReward: nat := 10

  /** The single cell a new snake occupies. */
  const Origin: Cell := Cell(200, 200)

  datatype GameState = GameState(
    snake: seq<Cell>,
    dir: Direction,
    food: Cell,
    score: nat,
    highScore: nat,
    running: bool)

  function Max(a: nat, b: nat): nat {
    if a > b then a else b
  }

  /** The cell one step from `c` in direction `d`: one cell along `d`, then
      wrapped around the edges of the canvas. Whatever `c` is, the result is
      on the canvas. */
  function Move(b: Board, c: Cell, d: Direction): (r: Cell)
    requires ValidBoard(b)
    ensures InBounds(b, r)
  {
    var x := match d case Left => c.x - GridSize case Right => c.x + GridSize case _ => c.x;
    var y := match d case Up => c.y - GridSize case Down => c.y + GridSize case _ => c.y;
    Cell(Wrap(x, b.width), Wrap(y, b.height))
  }

  /** From a board cell, a move is one cell along the direction's unit vector
      on a torus: the coordinates are taken modulo the canvas size, and the
      result is again a board cell. */
  lemma MoveIsToroidal(b: Board, c: Cell, d: Direction)
    requires ValidBoard(b)
    requires OnGrid(b, c)
    ensures Move(b, c, d) == Cell((c.x + GridSize * DeltaX(d)) % b.width, (c.y + GridSize * DeltaY(d)) % b.height)
    ensures OnGrid(b, Move(b, c, d))
  {
    StepWraps(c.x, DeltaX(d), b.width);
    StepWraps(c.y, DeltaY(d), b.height);
  }

  /** One axis of `MoveIsToroidal`. */
  lemma StepWraps(v: int, delta: int, extent: int)
    requires ValidExtent(extent)
    requires 0 <= v < extent && v % GridSize == 0
    requires -1 <= delta <= 1
    ensures Wrap(v + GridSize * delta, extent) == (v + GridSize * delta) % extent
    ensures Wrap(v + GridSize * delta, extent) % GridSize == 0
  {
    var w := v + GridSize * delta;
    assert w == v - GridSize || w == v || w == v + GridSize;
    assert w % GridSize == 0;
    WrapIsModulo(w, extent);
  }

  /** Where the head goes on the next tick. */
  function NextHead(b: Board, s: GameState): Cell
    requires ValidBoard(b) && |s.snake| > 0
  {
    Move(b, s.snake[0], s.dir)
  }

  /** The next head lands on a cell of the snake as it is before the move,
      the tail that is about to be vacated included. */
  predicate Collides(b: Board, s: GameState)
    requires ValidBoard(b) && |s.snake| > 0
  {
    NextHead(b, s) in s.snake
  }

  /** The next tick of a running game moves the head onto the food. */
  predicate Eats(b: Board, s: GameState)
    requires ValidBoard(b) && |s.snake| > 0
  {
    s.running && !Collides(b, s) && NextHead(b, s) == s.food
  }

  function Last(s: seq<Cell>): Cell
    requires |s| > 0
  {
    s[|s| - 1]
  }

  /** updateGame, except for choosing the next food cell: a stopped game is
      left alone; a collision stops the game and records the best score; any
      other tick puts the new head in front and drops the tail unless the head
      reached the food, which also scores. The food field is left for `Tick`
      to replace. */
  function Advance(b: Board, s: GameState): (r: GameState)
    requires ValidBoard(b) && |s.snake| > 0
    ensures !s.running ==> r == s
    ensures r.running <==> s.running && !Collides(b, s)
    ensures r.dir == s.dir && r.food == s.food
    ensures s.running && Collides(b, s) ==>
      && r.snake == s.snake
      && r.score == s.score
      && r.highScore == Max(s.highScore, s.score)
      && r.highScore >= s.score
    ensures r.running ==>
      && |r.snake| == |s.snake| + (if Eats(b, s) then 1 else 0)
      && r.snake[0] == NextHead(b, s)
      && r.snake[1..] == s.snake[..|r.snake| - 1]
      && r.score == s.score + (if Eats(b, s) then FoodReward else 0)
      && r.highScore == s.highScore
    ensures Eats(b, s) ==> Last(r.snake) == Last(s.snake)
  {
    if !s.running then s
    else
      var head := NextHead(b, s);
      if head in s.snake then
        s.(running := false, highScore := if s.score > s.highScore then s.score else s.highScore)
      else
        var grown := [head] + s.snake;
        if head == s.food then
          s.(snake := grown, score := s.score + FoodReward)
        else
          s.(snake := grown[..|grown| - 1])
  }

  /** What one tick may produce from `s`: the result of `Advance`, with a free
      cell of the grown snake as the new food when the tick eats. */
  ghost predicate Ticked(b: Board, s: GameState, t: GameState)
    requires ValidBoard(b) && |s.snake| > 0
  {
    var a := Advance(b, s);
    if Eats(b, s) then t == a.(food := t.food) && OnGrid(b, t.food) && t.food !in t.snake
    else t == a
  }

  /** One tick of the game loop. Food placement only terminates when the
      grown snake leaves a free cell, which is why the second precondition
      is there (see `RoomToEat`). */
  method Tick(b: Board, s: GameState) returns (t: GameState)
    requires ValidBoard(b) && |s.snake| > 0
    requires Eats(b, s) ==> HasFreeCell(b, [NextHead(b, s)] + s.snake)
    ensures Ticked(b, s, t)
    ensures !Eats(b, s) ==> t == Advance(b, s)
    ensures Eats(b, s) ==>
      && t.running
      && t.snake == [NextHead(b, s)] + s.snake
      && t.score == s.score + FoodReward
      && OnGrid(b, t.food)
      && t.food !in t.snake
  {
    t := Advance(b, s);
    if t.running && t.snake[0] == t.food {
      var food := GenerateFood(b, t.snake);
      t := t.(food := food);
    }
  }

  /** Each pair of neighbours in `snake` is one step apart. */
  predicate Connected(b: Board, snake: seq<Cell>)
    requires ValidBoard(b)
  {
    forall i :: 0 <= i < |snake| - 1 ==> Adjacent(b, snake[i], snake[i + 1])
  }

  /** `a` is one step away from `c` in some direction. */
  predicate Adjacent(b: Board, a: Cell, c: Cell)
    requires ValidBoard(b)
  {
    a == Move(b, c, Up) || a == Move(b, c, Down) || a == Move(b, c, Left) || a == Move(b, c, Right)
  }

  /** The invariant of the game state: a non-empty snake of distinct board
      cells, each one step from the next, food on a free board cell, and a
      score that counts exactly the cells the snake has grown by. */
  ghost predicate Valid(b: Board, s: GameState) {
    && ValidBoard(b)
    && |s.snake| > 0
    && (forall c :: c in s.snake ==> OnGrid(b, c))
    && Distinct(s.snake)
    && Connected(b, s.snake)
    && OnGrid(b, s.food)
    && s.food !in s.snake
    && s.score == FoodReward * (|s.snake| - 1)
  }

  /** A tick keeps the invariant. */
  lemma TickPreservesValid(b: Board, s: GameState, t: GameState)
    requires Valid(b, s)
    requires Ticked(b, s, t)
    ensures Valid(b, t)
  {
    var a := Advance(b, s);
    if a.running {
      var head := NextHead(b, s);
      var n := |a.snake| - 1;
      assert a.snake == [head] + s.snake[..n] by {
        assert a.snake == [a.snake[0]] + a.snake[1..];
      }
      MoveIsToroidal(b, s.snake[0], s.dir);
      MoveIsAdjacent(b, s.snake[0], s.dir);
      GrowKeepsShape(b, head, s.snake, n);
      assert s.food != head ==> s.food !in a.snake;
    }
  }

  /** A move lands on a neighbour of the cell it starts from. */
  lemma MoveIsAdjacent(b: Board, c: Cell, d: Direction)
    requires ValidBoard(b)
    ensures Adjacent(b, Move(b, c, d), c)
  {
  }

  /** Putting a fresh neighbouring board cell in front of a prefix of a
      well-formed snake gives a well-formed snake. */
  lemma GrowKeepsShape(b: Board, head: Cell, snake: seq<Cell>, n: nat)
    requires ValidBoard(b)
    requires 0 < |snake| && n <= |snake|
    requires forall c :: c in snake ==> OnGrid(b, c)
    requires Distinct(snake) && Connected(b, snake)
    requires OnGrid(b, head) && head !in snake
    requires Adjacent(b, head, snake[0])
    ensures forall c :: c in [head] + snake[..n] ==> OnGrid(b, c)
    ensures Distinct([head] + snake[..n])
    ensures Connected(b, [head] + snake[..n])
  {
  }

  /** The score, the best score and the length never shrink on a tick, and a
      stopped game never starts again by itself. */
  lemma TickIsMonotone(b: Board, s: GameState, t: GameState)
    requires ValidBoard(b) && |s.snake| > 0
    requires Ticked(b, s, t)
    ensures t.score >= s.score
    ensures t.highScore >= s.highScore
    ensures |t.snake| >= |s.snake|
    ensures t.running ==> s.running
    ensures !s.running ==> t == s
  {
  }

  /** A valid game whose snake leaves at least two board cells uncovered can
      always be ticked: the eating case finds room for the next food. */
  lemma RoomToEat(b: Board, s: GameState)
    requires Valid(b, s)
    requires |s.snake| + 1 < Columns(b) * Rows(b)
    ensures Eats(b, s) ==> HasFreeCell(b, [NextHead(b, s)] + s.snake)
  {
    FreeCellWhenNotFull(b, [NextHead(b, s)] + s.snake);
  }

  /** startGame before its first tick: a one-cell snake at the origin heading
      right, score 0, fresh food, running. The best score is kept. */
  method Reset(b: Board, s: GameState) returns (t: GameState)
    requires ValidBoard(b)
    ensures t.snake == [Origin] && t.dir == Right && t.score == 0 && t.running
    ensures t.highScore == s.highScore
    ensures Valid(b, t)
  {
    assert OnGrid(b, Cell(0, 0)) && Cell(0, 0) !in [Origin];
    var food := GenerateFood(b, [Origin]);
    t := GameState([Origin], Right, food, 0, s.highScore, true);
  }

  /** startGame: reset, then the first tick straight away. That tick can
      never end the game: the one-cell snake cannot run into itself. */
  method StartGame(b: Board, s: GameState) returns (t: GameState)
    requires ValidBoard(b)
    ensures t.running && t.dir == Right
    ensures t.highScore == s.highScore
    ensures 1 <= |t.snake| <= 2
    ensures t.snake[0] == Move(b, Origin, Right)
    ensures |t.snake| == 1 ==> t.score == 0
    ensures |t.snake| == 2 ==> t.score == FoodReward && t.snake[1] == Origin
    ensures Valid(b, t)
  {
    var r := Reset(b, s);
    var head := NextHead(b, r);
    assert head.y == 200;
    assert OnGrid(b, Cell(0, 0)) && Cell(0, 0) !in [head] + r.snake;
    t := Tick(b, r);
    TickPreservesValid(b, r, t);
  }

  /** restartGame: stop the running game and start a new one. */
  method RestartGame(b: Board, s: GameState) returns (t: GameState)
    requires ValidBoard(b)
    ensures t.running && t.dir == Right
    ensures t.highScore == s.highScore
    ensures 1 <= |t.snake| <= 2
    ensures t.snake[0] == Move(b, Origin, Right)
    ensures |t.snake| == 1 ==> t.score == 0
    ensures |t.snake| == 2 ==> t.score == FoodReward && t.snake[1] == Origin
    ensures Valid(b, t)
  {
    t := StartGame(b, s.(running := false));
  }

  /** The state when the page loads: a one-cell snake at the origin heading
      right, food placed, nothing scored, no game running. */
  method InitialState(b: Board) returns (s: GameState)
    requires ValidBoard(b)
    ensures s.snake == [Origin] && s.dir == Right
    ensures s.score == 0 && s.highScore == 0 && !s.running
    ensures Valid(b, s)
  {
    assert OnGrid(b, Cell(0, 0)) && Cell(0, 0) !in [Origin];
    var food := GenerateFood(b, [Origin]);
    s := GameState([Origin], Right, food, 0, 0, false);
  }

  /** The keydown handler applied to the game: only the direction changes. */
  function OnKeyDown(s: GameState, k: Key): (t: GameState)
    ensures t == s.(dir := t.dir)
    ensures t.dir != Opposite(s.dir)
    ensures t.dir == s.dir || (k != OtherKey && t.dir == Heading(k))
    ensures k != OtherKey && Heading(k) != Opposite(s.dir) ==> t.dir == Heading(k)
  {
    s.(dir := KeyDown(s.dir, k))
  }

  /** Input handlers touch nothing the invariant speaks about. */
  lemma TurnPreservesValid(b: Board, s: GameState, d: Direction)
    requires Valid(b, s)
    ensures Valid(b, s.(dir := d))
  {
  }
}
