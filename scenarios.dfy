/**
 * Concrete games on the 5-by-5 board (and one on the 1-by-1 board), worked
 * through the model of src/reducers/board.tsx.
 */
module Scenarios {
  import opened Wrappers
  import opened Positions
  import opened Boards
  import opened BoardInvariants

  /** A running board with the given body, food and direction, timer stopped. */
  function Game(size: Size, snake: Body, food: seq<Position>, d: Direction): Board
  {
    Board(size, snake, food, false, false, d)
  }

  /** From the initial board a tick moves the head from (2,2) to (3,2). */
  lemma StraightMove(draw: nat)
    ensures Move(Initial(), draw) == Ok(Initial().(snake := [Position(3, 2)]))
  {
    var b := Initial();
    var h := NextHead(b, Right);
    assert h == Trim(Position(3, 2), 5) == Position(3, 2);
    assert h !in b.snake && h !in b.food;
    assert Shifted(b.snake, h) == [h];
  }

  /** Moving right from the last column re-enters in the first one. */
  lemma WrapMove(draw: nat)
    ensures var b := Game(5, [Position(4, 2)], [], Right);
      Move(b, draw) == Ok(b.(snake := [Position(0, 2)]))
  {
    var b := Game(5, [Position(4, 2)], [], Right);
    var h := NextHead(b, Right);
    StepWraps(Position(4, 2), Right, 5);
    assert h == Position(0, 2);
    assert h !in b.snake && h !in b.food;
    assert Shifted(b.snake, h) == [h];
  }

  /**
   * Eating: a one-segment snake with the only food right ahead grows to two
   * segments, the food cell becoming its head, and exactly one new food lies
   * off the body (the 5-by-5 game with the head on (2,2) and food on (3,2) is
   * one instance).
   */
  lemma EatFood(b: Board, draw: nat)
    requires Invariant(b) && |b.snake| == 1 && b.food == [NextHead(b, b.direction)]
    ensures var r := Move(b, draw);
      && r.Ok?
      && r.value.snake == [NextHead(b, b.direction)] + b.snake
      && |r.value.food| == 1
      && r.value.food[0] !in r.value.snake
      && r.value.gameOver == b.gameOver
  {
    var h, n := NextHead(b, b.direction), b.size;
    assert h in b.food && b.snake[0] in b.snake;
    TwoCellsRoom(h, b.snake[0], n);
    EatOutcome(b, b.direction, draw);
    var r := Move(b, draw);
    assert r.value.food[0] in r.value.food;
  }

  /** A board holding two different cells has room for a third. */
  lemma TwoCellsRoom(p: Position, q: Position, n: int)
    requires InBounds(p, n) && InBounds(q, n) && p != q
    ensures 2 < n * n
  {
    assert n >= 2;
    assert n * n >= 2 * n;
  }

  /** Turning the head back into the body ends the game and changes nothing else. */
  lemma SelfCollision(draw: nat)
    ensures var b := Game(5, [Position(2, 2), Position(1, 2), Position(0, 2)], [], Left);
      Move(b, draw) == Ok(b.(gameOver := true))
  {
    var b := Game(5, [Position(2, 2), Position(1, 2), Position(0, 2)], [], Left);
    assert NextHead(b, Left) == Trim(Position(1, 2), 5) == Position(1, 2);
  }

  /** A three-segment snake heading RIGHT ignores a turn to LEFT. */
  lemma ReversalBlocked()
    ensures var b := Game(5, [Position(2, 2), Position(1, 2), Position(0, 2)], [], Right);
      SetDirection(b, Left).direction == Right
  {
  }

  /** An action the reducer does not know returns the state, or the initial board when there is none. */
  lemma UnknownKeepsState(state: Option<Board>, draw: nat)
    requires state.Some? ==> InGrid(state.value)
    ensures BoardReducer(state, Unrecognised, draw) == Ok(if state.Some? then state.value else Initial())
  {
  }

  /**
   * MOVE_SNAKE has no reversal guard: the three-segment snake heading RIGHT,
   * which SET_DIRECTION keeps heading RIGHT (ReversalBlocked), runs into
   * itself when moved LEFT.
   */
  lemma ReducerMovesBackwards(draw: nat)
    ensures var b := Game(5, [Position(2, 2), Position(1, 2), Position(0, 2)], [], Right);
      BoardReducer(Some(b), MoveSnake(Left), draw) == Ok(b.(gameOver := true))
  {
    var b := Game(5, [Position(2, 2), Position(1, 2), Position(0, 2)], [], Right);
    assert NextHead(b, Left) == Trim(Position(1, 2), 5) == Position(1, 2);
    assert BoardReducer(Some(b), MoveSnake(Left), draw) == MoveTo(b, Left, draw);
  }

  /**
   * Two turns between ticks reverse a three-segment snake: from RIGHT, UP and
   * then LEFT each pass the guard, and the next tick runs into the neck.
   */
  lemma DoubleTurnReversal(draw: nat)
    ensures var b := Game(5, [Position(2, 2), Position(1, 2), Position(0, 2)], [], Right);
      var t := SetDirection(SetDirection(b, Up), Left);
      Invariant(b) && t == b.(direction := Left) && Move(t, draw) == Ok(t.(gameOver := true))
  {
    var b := Game(5, [Position(2, 2), Position(1, 2), Position(0, 2)], [], Right);
    var t := b.(direction := Left);
    assert SetDirection(b, Up) == b.(direction := Up);
    assert NextHead(t, Left) == Trim(Position(1, 2), 5) == Position(1, 2);
    StepWraps(Position(1, 2), Right, 5);
    StepWraps(Position(0, 2), Right, 5);
  }

  /** With the corrected guard the second turn is refused and the snake keeps heading UP. */
  lemma DoubleTurnRefused()
    ensures var b := Game(5, [Position(2, 2), Position(1, 2), Position(0, 2)], [], Right);
      SetDirectionCorrected(SetDirectionCorrected(b, Up), Left) == b.(direction := Up)
  {
    var b := Game(5, [Position(2, 2), Position(1, 2), Position(0, 2)], [], Right);
    assert NextHead(b, Up) == Trim(Position(2, 1), 5) == Position(2, 1);
    assert NextHead(b, Left) == Trim(Position(1, 2), 5) == Position(1, 2);
  }

  /**
   * Off-board cells break the fullness test: with food outside a one-cell
   * board the index exceeds size² entries while the only cell is taken.
   */
  lemma OffBoardOverfull()
    ensures var b := Game(1, [Position(0, 0)], [Position(1, 1)], Right);
      |Objects(b)| == 2 > b.size * b.size && Key(Position(0, 0)) in Objects(b)
  {
    var b := Game(1, [Position(0, 0)], [Position(1, 1)], Right);
    var m := Objects(b);
    KeyInjective(Position(0, 0), Position(1, 1));
    forall k | k in m
      ensures k == Key(Position(0, 0)) || k == Key(Position(1, 1))
    {
      assert m[k].pos in b.snake || m[k].pos in b.food;
    }
    assert m.Keys == {Key(Position(0, 0)), Key(Position(1, 1))};
  }

  /** On a one-cell board holding the snake, placing food fails with "Board is full". */
  lemma FullBoard(draw: nat)
    ensures PlaceFood(Game(1, [Position(0, 0)], [], Right), draw) == Err(BoardFull)
  {
    ObjectsSize(Game(1, [Position(0, 0)], [], Right));
  }
}
