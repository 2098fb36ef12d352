/** The game state of the snake game: the apple, the snake, the arrow-key
    rule and one iteration of the game loop, without any drawing.

    Random numbers are supplied by the caller: a `Draw` is one pair of
    `randint(0, GRID_WIDTH - 1)`, `randint(0, GRID_HEIGHT - 1)` results. */
module TheSnake {
  import opened Grid

  datatype Option<T> = None | Some(value: T)

  /** The centre of the window, `[SCREEN_WIDTH // 2, SCREEN_HEIGHT // 2]`. */
  const START: Pos := Pos(SCREEN_WIDTH / 2, SCREEN_HEIGHT / 2)

  /** One random cell, as `randint` produces it: inside the board. */
  type Draw = c: Cell | InGrid(c) witness Cell(0, 0)

  // ---------------------------------------------------------------------
  // Apple

  class Apple {
    var position: Pos

    ghost predicate Valid()
      reads this
    {
      OnGrid(position)
    }

    /** A game object starts at the centre; the apple immediately takes a
        random position instead. */
    constructor (draw: Draw)
      ensures Valid()
      ensures position == ToPixel(draw)
    {
      position := ToPixel(draw);
      PixelCellCorrespondence(ToPixel(draw), draw);
    }

    /** Move the apple to the pixel of a random cell. */
    method RandomizePosition(draw: Draw)
      modifies this
      ensures Valid()
      ensures position == ToPixel(draw)
    {
      position := ToPixel(draw);
      PixelCellCorrespondence(position, draw);
    }
  }

  /** The eat path's relocation: one random position, then new ones for as
      long as the apple lies on the body.  `draws` holds the successive
      random cells; one of them must be free, or the loop would not end.
      `used` is the number of draws taken. */
  method RelocateApple(apple: Apple, body: seq<Pos>, draws: seq<Draw>) returns (used: nat)
    requires exists i :: 0 <= i < |draws| && ToPixel(draws[i]) !in body
    modifies apple
    ensures apple.Valid()
    ensures 1 <= used <= |draws|
    ensures apple.position == ToPixel(draws[used - 1])
    ensures apple.position !in body
    ensures forall j :: 0 <= j < used - 1 ==> ToPixel(draws[j]) in body
  {
    ghost var free :| 0 <= free < |draws| && ToPixel(draws[free]) !in body;
    apple.RandomizePosition(draws[0]);
    used := 1;
    while apple.position in body
      invariant 1 <= used <= |draws| && used <= free + 1
      invariant apple.Valid()
      invariant apple.position == ToPixel(draws[used - 1])
      invariant forall j :: 0 <= j < used - 1 ==> ToPixel(draws[j]) in body
      decreases free + 1 - used
    {
      apple.RandomizePosition(draws[used]);
      used := used + 1;
    }
  }

  // ---------------------------------------------------------------------
  // Snake

  /** The body after one step: the new head in front, and the tail dropped
      unless the snake is growing. */
  function Advance(body: seq<Pos>, d: Direction, growing: bool): seq<Pos>
    requires body != []
  {
    var head := NextHead(body[0], d);
    if growing then [head] + body else [head] + body[..|body| - 1]
  }

  /** A step keeps the body non-empty and on the grid, and changes its
      length by exactly one when growing and not at all otherwise. */
  lemma AdvanceKeepsBody(body: seq<Pos>, d: Direction, growing: bool)
    requires body != []
    requires forall i :: 0 <= i < |body| ==> OnGrid(body[i])
    ensures |Advance(body, d, growing)| == |body| + (if growing then 1 else 0)
    ensures forall i :: 0 <= i < |Advance(body, d, growing)| ==> OnGrid(Advance(body, d, growing)[i])
  {
    var r := Advance(body, d, growing);
    forall i | 0 <= i < |r|
      ensures OnGrid(r[i])
    {
      if i > 0 {
        assert r[i] == body[i - 1];
      }
    }
  }

  class Snake {
    var positions: seq<Pos>          // head first
    var direction: Direction
    var nextDirection: Option<Direction>
    var last: Option<Pos>            // the tail cell the last move dropped
    var grew: bool

    /** The body is never empty and lies on the grid. */
    ghost predicate Valid()
      reads this
    {
      |positions| >= 1 && forall i :: 0 <= i < |positions| ==> OnGrid(positions[i])
    }

    /** The pending direction, if any, does not reverse the current one. */
    predicate NoPendingReversal()
      reads this
    {
      nextDirection.None? || nextDirection.value != Opposite(direction)
    }

    /** The direction the next `UpdateDirection` will leave in force. */
    function CommittedDirection(): Direction
      reads this
    {
      match nextDirection
      case Some(d) => d
      case None => direction
    }

    constructor ()
      ensures Valid() && NoPendingReversal()
      ensures positions == [START] && direction == Right
      ensures nextDirection == None && last == None && !grew
    {
      positions := [START];
      direction := Right;
      nextDirection := None;
      last := None;
      grew := false;
    }

    /** Back to the starting state: one cell at the centre, moving right. */
    method Reset()
      modifies this
      ensures Valid() && NoPendingReversal()
      ensures positions == [START] && direction == Right
      ensures nextDirection == None && last == None && !grew
    {
      positions := [START];
      direction := Right;
      nextDirection := None;
      last := None;
      grew := false;
    }

    /** Commit the pending direction, if there is one. */
    method UpdateDirection()
      modifies this
      ensures direction == old(CommittedDirection()) && nextDirection == None
      ensures old(nextDirection).None? ==> direction == old(direction)
      ensures old(NoPendingReversal()) ==> direction != Opposite(old(direction))
      ensures NoPendingReversal()
      ensures positions == old(positions) && last == old(last) && grew == old(grew)
    {
      if nextDirection.Some? {
        direction := nextDirection.value;
        nextDirection := None;
      }
    }

    function HeadPosition(): Pos
      reads this
      requires positions != []
    {
      positions[0]
    }

    /** One step: prepend the wrapped new head, then either drop the tail
        (remembered in `last`) or consume the growth flag. */
    method Move()
      requires positions != []
      modifies this
      ensures positions == Advance(old(positions), old(direction), old(grew))
      ensures |positions| == |old(positions)| + (if old(grew) then 1 else 0)
      ensures last == if old(grew) then old(last) else Some(old(positions)[|old(positions)| - 1])
      ensures !grew
      ensures direction == old(direction) && nextDirection == old(nextDirection)
      ensures old(Valid()) ==> Valid()
    {
      ghost var before := positions;
      var head := HeadPosition();
      var newHead := NextHead(head, direction);
      positions := [newHead] + positions;
      if !grew {
        last := Some(positions[|positions| - 1]);
        positions := positions[..|positions| - 1];
      } else {
        grew := false;
      }
      if forall i :: 0 <= i < |before| ==> OnGrid(before[i]) {
        AdvanceKeepsBody(before, direction, old(grew));
      }
    }

    /** Mark the snake to keep its tail on the next move. */
    method Grow()
      modifies this
      ensures grew
      ensures positions == old(positions) && direction == old(direction)
      ensures nextDirection == old(nextDirection) && last == old(last)
    {
      grew := true;
    }

    /** Whether the head lies on another segment of the body. */
    function CheckCollision(): (hit: bool)
      reads this
      requires positions != []
      ensures hit <==> exists i :: 1 <= i < |positions| && positions[i] == positions[0]
    {
      HeadPosition() in positions[1..]
    }
  }

  // ---------------------------------------------------------------------
  // Keys

  /** A key-down event: one of the four arrow keys, or any other key. */
  datatype Key = KeyUp | KeyDown | KeyLeft | KeyRight | OtherKey

  /** The direction an arrow key asks for. */
  function KeyDirection(k: Key): Option<Direction> {
    match k
    case KeyUp => Some(Up)
    case KeyDown => Some(Down)
    case KeyLeft => Some(Left)
    case KeyRight => Some(Right)
    case OtherKey => None
  }

  /** An arrow key that does not ask to reverse the current direction. */
  predicate Accepted(k: Key, current: Direction) {
    KeyDirection(k).Some? && KeyDirection(k).value != Opposite(current)
  }

  /** The pending direction after one key event: an arrow key sets it,
      except one that would reverse `current`; any other key leaves it. */
  function OnKey(k: Key, current: Direction, pending: Option<Direction>): (r: Option<Direction>)
    ensures Accepted(k, current) ==> r == KeyDirection(k)
    ensures !Accepted(k, current) ==> r == pending
  {
    if k == KeyUp && current != Down then Some(Up)
    else if k == KeyDown && current != Up then Some(Down)
    else if k == KeyLeft && current != Right then Some(Left)
    else if k == KeyRight && current != Left then Some(Right)
    else pending
  }

  /** The pending direction after a sequence of key events, processed in
      order against an unchanging current direction. */
  function PendingAfter(keys: seq<Key>, current: Direction, pending: Option<Direction>): Option<Direction>
  {
    if keys == [] then pending
    else OnKey(keys[|keys| - 1], current, PendingAfter(keys[..|keys| - 1], current, pending))
  }

  /** With no accepted key among the events, the pending direction is
      unchanged. */
  lemma {:induction false} NoAcceptedKeyKeepsPending(keys: seq<Key>, current: Direction, pending: Option<Direction>)
    requires forall i :: 0 <= i < |keys| ==> !Accepted(keys[i], current)
    ensures PendingAfter(keys, current, pending) == pending
  {
    if keys != [] {
      var init := keys[..|keys| - 1];
      assert forall i :: 0 <= i < |init| ==> init[i] == keys[i];
      NoAcceptedKeyKeepsPending(init, current, pending);
      assert !Accepted(keys[|keys| - 1], current);
    }
  }

  /** The last accepted key wins: if key `j` is accepted and none after it
      is, the pending direction is the one key `j` asks for. */
  lemma {:induction false} LastAcceptedKeyWins(keys: seq<Key>, current: Direction, pending: Option<Direction>, j: nat)
    requires j < |keys| && Accepted(keys[j], current)
    requires forall i :: j < i < |keys| ==> !Accepted(keys[i], current)
    ensures PendingAfter(keys, current, pending) == KeyDirection(keys[j])
  {
    var init := keys[..|keys| - 1];
    if j < |keys| - 1 {
      assert init[j] == keys[j];
      assert forall i :: j < i < |init| ==> init[i] == keys[i];
      LastAcceptedKeyWins(init, current, pending, j);
      assert !Accepted(keys[|keys| - 1], current);
    }
  }

  /** Key handling never leaves a pending reversal of the current direction. */
  lemma {:induction false} PendingAfterNeverReverses(keys: seq<Key>, current: Direction, pending: Option<Direction>)
    requires pending.None? || pending.value != Opposite(current)
    ensures var r := PendingAfter(keys, current, pending);
            r.None? || r.value != Opposite(current)
  {
    if keys != [] {
      PendingAfterNeverReverses(keys[..|keys| - 1], current, pending);
    }
  }

  /** Process the key events of one frame. */
  method HandleKeys(snake: Snake, keys: seq<Key>)
    modifies snake
    ensures snake.nextDirection == PendingAfter(keys, old(snake.direction), old(snake.nextDirection))
    ensures old(snake.NoPendingReversal()) ==> snake.NoPendingReversal()
    ensures snake.positions == old(snake.positions) && snake.direction == old(snake.direction)
    ensures snake.last == old(snake.last) && snake.grew == old(snake.grew)
  {
    for n := 0 to |keys|
      invariant snake.nextDirection == PendingAfter(keys[..n], snake.direction, old(snake.nextDirection))
      invariant snake.positions == old(snake.positions) && snake.direction == old(snake.direction)
      invariant snake.last == old(snake.last) && snake.grew == old(snake.grew)
    {
      assert keys[..n + 1][..n] == keys[..n];
      snake.nextDirection := OnKey(keys[n], snake.direction, snake.nextDirection);
    }
    assert keys[..|keys|] == keys;
    if old(snake.NoPendingReversal()) {
      PendingAfterNeverReverses(keys, snake.direction, old(snake.nextDirection));
    }
  }

  // ---------------------------------------------------------------------
  // One iteration of the game loop

  /** Commit the direction, move, eat the apple (grow and relocate it off
      the body) and reset on self-collision, re-randomising the apple with
      `resetDraw` and no avoidance.  `draws` feeds the eat path's
      relocation; it needs a free cell only when the apple is eaten. */
  method Tick(snake: Snake, apple: Apple, draws: seq<Draw>, resetDraw: Draw)
    returns (ate: bool, collided: bool)
    requires snake.Valid()
    requires NextHead(snake.positions[0], snake.CommittedDirection()) == apple.position ==>
               exists i :: 0 <= i < |draws| &&
                 ToPixel(draws[i]) !in Advance(snake.positions, snake.CommittedDirection(), snake.grew)
    modifies snake, apple
    ensures snake.Valid() && snake.NoPendingReversal()
    ensures old(apple.Valid()) ==> apple.Valid()
    ensures var moved := Advance(old(snake.positions), old(snake.CommittedDirection()), old(snake.grew));
            && ate == (moved[0] == old(apple.position))
            && collided == (exists i :: 1 <= i < |moved| && moved[i] == moved[0])
            && (!collided ==>
                  && snake.positions == moved
                  && snake.direction == old(snake.CommittedDirection())
                  && snake.nextDirection == None
                  && snake.grew == ate
                  && snake.last == if old(snake.grew) then old(snake.last)
                                   else Some(old(snake.positions)[|old(snake.positions)| - 1]))
    ensures !collided ==> |snake.positions| == |old(snake.positions)| + (if old(snake.grew) then 1 else 0)
    ensures !collided && old(snake.NoPendingReversal()) ==> snake.direction != Opposite(old(snake.direction))
    ensures collided ==>
              && snake.positions == [START] && snake.direction == Right
              && snake.nextDirection == None && snake.last == None && !snake.grew
              && apple.position == ToPixel(resetDraw)
    ensures ate && !collided ==> apple.position !in snake.positions
    ensures ate && !collided ==>
              exists k :: 0 <= k < |draws| && apple.position == ToPixel(draws[k]) &&
                forall j :: 0 <= j < k ==> ToPixel(draws[j]) in snake.positions
    ensures !ate && !collided ==> apple.position == old(apple.position)
  {
    snake.UpdateDirection();
    snake.Move();
    ate := snake.HeadPosition() == apple.position;
    if ate {
      snake.Grow();
      var used := RelocateApple(apple, snake.positions, draws);
    }
    collided := snake.CheckCollision();
    if collided {
      snake.Reset();
      apple.RandomizePosition(resetDraw);
    }
  }
}
