/**
  The snake game of the board view: a snake of grid cells moves one cell per
  tick in its direction, restarts the game when it runs into a wall or into any
  cell of its own body, and grows by one cell (scoring one point) when its new
  head lands on the food cell.

  The pure rules (next head, collision test, food placement, the key guard and
  one tick as a function of the game value) come first; the class View at the
  end holds the mutable fields of the view and its methods are proved against
  those rules.
 */
module Board {

  datatype Option<T> = None | Some(value: T)

  /** A grid cell; (0, 0) is the top-left corner. */
  datatype Cell = Cell(x: int, y: int)

  datatype Direction = Right | Left | Up | Down {
    function Opposite(): (r: Direction)
      ensures r != this
    {
      match this
      case Right => Left
      case Left => Right
      case Up => Down
      case Down => Up
    }
  }

  const CellWidth := 10
  const CanvasWidth := 450
  const CanvasHeight := 450
  /** Number of columns and rows of the board: 450 / 10 = 45 each. */
  const Columns := CanvasWidth / CellWidth
  const Rows := CanvasHeight / CellWidth
  /** Number of segments of a freshly created snake. */
  const SnakeLength := 5

  predicate InGrid(c: Cell) {
    0 <= c.x < Columns && 0 <= c.y < Rows
  }

  /** Two cells that share a side. */
  predicate Adjacent(a: Cell, b: Cell) {
    (a.x == b.x && (a.y - b.y == 1 || b.y - a.y == 1)) ||
    (a.y == b.y && (a.x - b.x == 1 || b.x - a.x == 1))
  }

  // ---------------------------------------------------------------------------
  // Movement and collision

  /** The cell the head moves to in one tick. */
  function NextHead(head: Cell, d: Direction): (r: Cell)
    ensures Adjacent(head, r)
    ensures d == Right ==> r.x > head.x
    ensures d == Left ==> r.x < head.x
    ensures d == Up ==> r.y < head.y
    ensures d == Down ==> r.y > head.y
  {
    match d
    case Right => Cell(head.x + 1, head.y)
    case Left => Cell(head.x - 1, head.y)
    case Up => Cell(head.x, head.y - 1)
    case Down => Cell(head.x, head.y + 1)
  }

  /** Moving back in the opposite direction returns to the start cell. */
  lemma NextHeadReversible(c: Cell, d: Direction)
    ensures NextHead(NextHead(c, d), d.Opposite()) == c
  {
  }

  /** The wall test of the collision check: one step outside the board on either axis. */
  predicate OnWall(c: Cell) {
    c.x == -1 || c.x == Columns || c.y == -1 || c.y == Rows
  }

  /** Whether any segment of the body is the cell c (the `any` scan of the body). */
  function Occupies(body: seq<Cell>, c: Cell): (r: bool)
    ensures r <==> c in body
  {
    if |body| == 0 then false
    else body[0] == c || Occupies(body[1..], c)
  }

  /** The collision check: the wall test first, then every segment of the body, tail included. */
  function Collides(c: Cell, body: seq<Cell>): (r: bool)
    ensures r <==> OnWall(c) || c in body
    ensures !r ==> forall i :: 0 <= i < |body| ==> body[i] != c
  {
    if OnWall(c) then true else Occupies(body, c)
  }

  /**
    The wall test only looks for the coordinates -1 and 45, but a head that
    starts inside the board can only step onto those, so a move that does not
    collide stays inside the board.
   */
  lemma {:induction false} NoCollisionStaysInGrid(head: Cell, d: Direction, body: seq<Cell>)
    requires InGrid(head)
    ensures InGrid(NextHead(head, d)) <==> !OnWall(NextHead(head, d))
    ensures !Collides(NextHead(head, d), body) ==> InGrid(NextHead(head, d))
  {
    var n := NextHead(head, d);
    assert Columns == 45 && Rows == 45;
    match d
    case Right => assert n == Cell(head.x + 1, head.y);
    case Left => assert n == Cell(head.x - 1, head.y);
    case Up => assert n == Cell(head.x, head.y - 1);
    case Down => assert n == Cell(head.x, head.y + 1);
  }

  // ---------------------------------------------------------------------------
  // Initial snake and food

  /** The body built by the snake constructor: a horizontal snake on the top row, head first. */
  function InitialBody(): (b: seq<Cell>)
    ensures b == [Cell(4, 0), Cell(3, 0), Cell(2, 0), Cell(1, 0), Cell(0, 0)]
  {
    seq(SnakeLength, k requires 0 <= k < SnakeLength => Cell(SnakeLength - 1 - k, 0))
  }

  /** Math.round: the nearest integer, halves rounded up. */
  function Round(v: real): (n: int)
    ensures v - 0.5 < n as real <= v + 0.5
  {
    (v + 0.5).Floor
  }

  /**
    One food coordinate, round(random * (extent - cellWidth) / cellWidth), for a
    random value in [0, 1) and a canvas extent of 450.
   */
  function FoodCoord(random: real, extent: int): (n: int)
    requires 0.0 <= random < 1.0
    requires extent == CanvasWidth || extent == CanvasHeight
    ensures 0 <= n < extent / CellWidth
  {
    var scaled := random * (extent - CellWidth) as real / CellWidth as real;
    assert 0.0 <= scaled < 44.0;
    Round(scaled)
  }

  /** The food cell made from the two random values drawn for x and y. */
  function SpawnFood(rx: real, ry: real): (c: Cell)
    requires 0.0 <= rx < 1.0 && 0.0 <= ry < 1.0
    ensures InGrid(c)
  {
    Cell(FoodCoord(rx, CanvasWidth), FoodCoord(ry, CanvasHeight))
  }

  // ---------------------------------------------------------------------------
  // Keyboard

  /** The arrow key codes: 37 left, 38 up, 39 right, 40 down. */
  function ArrowKey(key: int): (r: Option<Direction>)
    ensures r.Some? <==> 37 <= key <= 40
  {
    if key == 37 then Some(Left)
    else if key == 38 then Some(Up)
    else if key == 39 then Some(Right)
    else if key == 40 then Some(Down)
    else None
  }

  /**
    The direction after a key press in direction d: an arrow key turns the
    snake unless it asks for the reverse of d; any other key changes nothing.
   */
  function Turn(d: Direction, key: int): (r: Direction)
    ensures r != d.Opposite()
    ensures !(37 <= key <= 40) ==> r == d
    ensures r == d || ArrowKey(key) == Some(r)
    ensures ArrowKey(key).Some? && ArrowKey(key).value != d.Opposite() ==> r == ArrowKey(key).value
  {
    match ArrowKey(key)
    case Some(k) => if k == d.Opposite() then d else k
    case None => d
  }

  /**
    The guard compares with the stored direction, not with the last move: two
    arrow keys pressed between two ticks can reverse the heading (right, then up,
    then left), so that the next tick moves the head onto the second segment.
   */
  lemma {:induction false} TwoKeysCanReverse()
    ensures Turn(Turn(Right, 38), 37) == Right.Opposite()
    ensures Collides(NextHead(InitialBody()[0], Turn(Turn(Right, 38), 37)), InitialBody())
  {
    assert Turn(Right, 38) == Up;
    assert NextHead(Cell(4, 0), Left) == InitialBody()[1];
  }

  // ---------------------------------------------------------------------------
  // The game state and one tick

  /** The game state of the view: the body (head first), direction, food and score. */
  datatype Game = Game(body: seq<Cell>, direction: Direction, food: Cell, score: int)

  /** The state createGame sets up, given the food it made. */
  function NewGame(food: Cell): (g: Game)
    ensures g.body == InitialBody() && |g.body| == SnakeLength && g.body[0] == Cell(4, 0)
    ensures g.direction == Right && g.score == 0 && g.food == food
  {
    Game(InitialBody(), Right, food, 0)
  }

  /**
    One tick of the game loop, with `newFood` the food that createFood would make
    if it is called during the tick.
   */
  function Tick(g: Game, newFood: Cell): (r: Game)
    requires |g.body| > 0
    ensures var head := NextHead(g.body[0], g.direction);
      if Collides(head, g.body) then
        r.body == InitialBody() && r.direction == Right && r.score == 0 && r.food == newFood
      else if head == g.food then
        |r.body| == |g.body| + 1 && r.body[0] == head && r.body[1..] == g.body &&
        r.direction == g.direction && r.score == g.score + 1 && r.food == newFood
      else
        |r.body| == |g.body| && r.body[0] == head && r.body[1..] == g.body[..|g.body| - 1] &&
        r.direction == g.direction && r.score == g.score && r.food == g.food
  {
    var head := NextHead(g.body[0], g.direction);
    if Collides(head, g.body) then NewGame(newFood)
    else if head == g.food then g.(body := [head] + g.body, score := g.score + 1, food := newFood)
    else g.(body := [head] + g.body[..|g.body| - 1])
  }

  /**
    The code has no exemption for the tail: stepping onto the cell that the tail
    is about to leave restarts the game. Here a six-cell snake that satisfies
    the game invariant, curled round a 2x2 block away from the corners, heads
    left onto its own tail.
   */
  lemma {:induction false} TailIsAnObstacle()
    ensures var g := CurledGame();
      ValidGame(g) && NextHead(g.body[0], g.direction) == g.body[|g.body| - 1] &&
      Tick(g, Cell(5, 5)) == NewGame(Cell(5, 5))
  {
    var g := CurledGame();
    var b := g.body;
    assert b[0] == Cell(2, 1) && b[1] == Cell(3, 1) && b[2] == Cell(3, 2);
    assert b[3] == Cell(2, 2) && b[4] == Cell(1, 2) && b[5] == Cell(1, 1);
    assert Distinct(b) by {
      forall i, j | 0 <= i < j < |b| ensures b[i] != b[j] {
        assert b[i].x + 10 * b[i].y != b[j].x + 10 * b[j].y;
      }
    }
    assert NextHead(b[0], g.direction) == b[5];
    assert Collides(Cell(1, 1), b);
  }

  /**
    A six-cell snake (one food eaten) curled round the cells (1..3, 1..2),
    heading left. A run from the initial snake gets here with the first food at
    (10, 2): right to (10, 0), down to (10, 2), left to (5, 2), up to (5, 0),
    left to (1, 0), down to (1, 2), right to (3, 2), up to (3, 1), left to (2, 1),
    and the next food drawn at (40, 40).
   */
  function CurledGame(): Game {
    Game([Cell(2, 1), Cell(3, 1), Cell(3, 2), Cell(2, 2), Cell(1, 2), Cell(1, 1)], Left, Cell(40, 40), 1)
  }

  // ---------------------------------------------------------------------------
  // The invariant kept by every tick

  ghost predicate AllInGrid(body: seq<Cell>) {
    forall i :: 0 <= i < |body| ==> InGrid(body[i])
  }

  ghost predicate Distinct(body: seq<Cell>) {
    forall i, j :: 0 <= i < j < |body| ==> body[i] != body[j]
  }

  /** Consecutive segments share a side. */
  ghost predicate Connected(body: seq<Cell>) {
    forall i :: 0 < i < |body| ==> Adjacent(body[i - 1], body[i])
  }

  /**
    The invariant that every reachable game satisfies: at least five segments, all on the board, no two on the
    same cell, each next to the one before it, the food on the board, and a
    score equal to the number of segments gained since the game started.
   */
  ghost predicate ValidGame(g: Game) {
    && |g.body| >= SnakeLength
    && AllInGrid(g.body)
    && Distinct(g.body)
    && Connected(g.body)
    && InGrid(g.food)
    && g.score == |g.body| - SnakeLength
  }

  lemma NewGameValid(food: Cell)
    requires InGrid(food)
    ensures ValidGame(NewGame(food))
  {
    var b := InitialBody();
    assert forall i :: 0 <= i < |b| ==> b[i] == Cell(4 - i, 0);
  }

  /** Every tick, whichever branch it takes, keeps the invariant. */
  lemma {:induction false} TickPreservesValid(g: Game, newFood: Cell)
    requires ValidGame(g) && InGrid(newFood)
    ensures ValidGame(Tick(g, newFood))
  {
    var head := NextHead(g.body[0], g.direction);
    var r := Tick(g, newFood);
    if Collides(head, g.body) {
      NewGameValid(newFood);
    } else {
      NoCollisionStaysInGrid(g.body[0], g.direction, g.body);
      var rest := if head == g.food then g.body else g.body[..|g.body| - 1];
      assert r.body == [head] + rest;
      assert forall i :: 0 < i < |r.body| ==> r.body[i] == g.body[i - 1];
      assert head !in rest;
    }
  }

  // ---------------------------------------------------------------------------
  // The view

  /** The board view with its mutable game fields. */
  class View {
    var snake: seq<Cell>
    var direction: Direction
    var food: Cell
    var score: int

    /** The game state held in the fields. */
    function Model(): Game
      reads this
    {
      Game(snake, direction, food, score)
    }

    ghost predicate Valid()
      reads this
    {
      ValidGame(Model())
    }

    /** The view as it is once inserted: createGame has run on the initial fields. */
    constructor (rx: real, ry: real)
      requires 0.0 <= rx < 1.0 && 0.0 <= ry < 1.0
      ensures Model() == NewGame(SpawnFood(rx, ry))
      ensures Valid()
    {
      snake, direction, food, score := [], Right, Cell(0, 0), 0;
      new;
      CreateGame(rx, ry);
    }

    /** Restart: direction right, score 0, a new snake and new food. */
    method CreateGame(rx: real, ry: real)
      requires 0.0 <= rx < 1.0 && 0.0 <= ry < 1.0
      modifies this
      ensures Model() == NewGame(SpawnFood(rx, ry))
      ensures Valid()
    {
      direction := Right;
      score := 0;
      CreateSnake();
      CreateFood(rx, ry);
      NewGameValid(food);
    }

    /** Builds the body by pushing (4, 0), (3, 0), ..., (0, 0) onto an empty array. */
    method CreateSnake()
      modifies this`snake
      ensures snake == InitialBody()
    {
      snake := [];
      var length := SnakeLength;
      var i := length - 1;
      while i >= 0
        invariant -1 <= i < length
        invariant |snake| == length - 1 - i
        invariant forall k :: 0 <= k < |snake| ==> snake[k] == Cell(length - 1 - k, 0)
      {
        snake := snake + [Cell(i, 0)];
        i := i - 1;
      }
    }

    method CreateFood(rx: real, ry: real)
      requires 0.0 <= rx < 1.0 && 0.0 <= ry < 1.0
      modifies this`food
      ensures food == SpawnFood(rx, ry)
    {
      food := Cell(FoodCoord(rx, CanvasWidth), FoodCoord(ry, CanvasHeight));
    }

    /**
      One tick of the game loop (the movement, eating and collision part of
      paint). rx and ry are the random values createFood would draw.
     */
    method Step(rx: real, ry: real)
      requires |snake| > 0
      requires 0.0 <= rx < 1.0 && 0.0 <= ry < 1.0
      modifies this
      ensures Model() == Tick(old(Model()), SpawnFood(rx, ry))
      ensures old(Valid()) ==> Valid()
    {
      ghost var before := Model();
      var head := NextHead(snake[0], direction);
      if Collides(head, snake) {
        CreateGame(rx, ry);
        return;
      }
      var segment: Cell;
      if head == food {
        segment := head;
        score := score + 1;
        CreateFood(rx, ry);
      } else {
        // the tail is popped and reused as the new head
        snake := snake[..|snake| - 1];
        segment := head;
      }
      snake := [segment] + snake;
      if ValidGame(before) {
        TickPreservesValid(before, SpawnFood(rx, ry));
      }
    }

    /** The key handler: an arrow key turns the snake unless it would reverse it. */
    method KeyDown(key: int)
      modifies this`direction
      ensures direction == Turn(old(direction), key)
      ensures direction != old(direction).Opposite()
      ensures old(Valid()) ==> Valid()
    {
      var d := direction;
      if key == 37 && d != Right {
        direction := Left;
      } else if key == 38 && d != Down {
        direction := Up;
      } else if key == 39 && d != Left {
        direction := Right;
      } else if key == 40 && d != Up {
        direction := Down;
      }
    }
  }
}
