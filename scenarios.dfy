/** Client scenarios that use only the contracts of the game state: the
    wrap-around after sixteen moves from the start, an apple eaten and the
    growth that follows, and a reset that can put the apple under the snake. */
module Scenarios {
  import opened Grid
  import opened TheSnake

  /** A fresh snake moved sixteen times to the right, without growing or
      turning, wraps from the centre column to column 0 of the same row and
      still has one segment. */
  method WrapAroundFromStart() returns (head: Pos, length: nat)
    ensures head == Pos(0, SCREEN_HEIGHT / 2)
    ensures length == 1
  {
    var snake := new Snake();
    for n := 0 to 16
      invariant snake.positions == [Pos((SCREEN_WIDTH / 2 + n * GRID_SIZE) % SCREEN_WIDTH, SCREEN_HEIGHT / 2)]
      invariant snake.direction == Right && !snake.grew
    {
      snake.Move();
    }
    head := snake.HeadPosition();
    length := |snake.positions|;
  }

  /** The body [(100, 100)] moving right reaches the apple at (120, 100) and
      eats it; the next tick keeps the tail, giving [(140, 100), (120, 100)]. */
  method EatThenGrow() returns (body: seq<Pos>, ateFirst: bool, grewFirst: bool)
    ensures ateFirst && grewFirst
    ensures body == [Pos(140, 100), Pos(120, 100)]
  {
    var snake := new Snake();
    snake.positions := [Pos(100, 100)];
    var apple := new Apple(Cell(6, 5));
    var draws: seq<Draw> := [Cell(0, 0)];
    assert Advance(snake.positions, Right, false) == [Pos(120, 100)];
    assert ToPixel(draws[0]) == Pos(0, 0);
    var ate, collided := Tick(snake, apple, draws, Cell(0, 0));
    ateFirst := ate;
    grewFirst := snake.grew;
    assert apple.position == Pos(0, 0);
    assert NextHead(Pos(120, 100), Right) == Pos(140, 100);
    ate, collided := Tick(snake, apple, [], Cell(0, 0));
    body := snake.positions;
  }

  /** A snake whose head runs into its own body is reset; the apple is then
      re-randomised without avoiding the body, so a draw of the centre cell
      puts it on the snake. */
  method ResetIgnoresBody() returns (collided: bool, onSnake: bool)
    ensures collided && onSnake
  {
    var snake := new Snake();
    snake.positions := [Pos(100, 100), Pos(120, 100), Pos(120, 120), Pos(100, 120), Pos(80, 120)];
    snake.direction := Down;
    var apple := new Apple(Cell(0, 0));
    var moved := Advance(snake.positions, Down, false);
    assert moved[4] == moved[0];
    var ate;
    ate, collided := Tick(snake, apple, [], Cell(16, 12));
    onSnake := apple.position in snake.positions;
  }
}
