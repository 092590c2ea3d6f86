/**
  The board: its fixed size, the snake it owns and the food cell. A step runs
  one tick of the snake, and when the head lands on the food the snake grows
  by one and new food is placed on a free cell.
 */
module Game {
  import opened Optional
  import opened Grid
  import opened Snakes

  /** The smallest accepted board side. */
  const MinSide := 8

  /** The snake's length at the start; the score counts growth beyond it. */
  const StartLength := 3

  /** The three segments of the starting snake, tail (2,2) to head (4,2). */
  const StartFields := map[Coordinate(2, 2) := 1, Coordinate(3, 2) := 2, Coordinate(4, 2) := 3]

  class GameState {
    const width: int
    const height: int
    var snake: Snake
    var food: Coordinate

    /** The board invariant: the snake's invariant, and food on a free cell. */
    ghost predicate Valid()
      reads this, snake
    {
      && width >= MinSide && height >= MinSide
      && snake.Valid(width, height)
      && InBounds(food, width, height)
      && food !in snake.fields
    }

    /** The start position: head (4,2) heading Right, three segments, length 3. */
    ghost predicate Initial()
      reads this, snake
    {
      && snake.head == Coordinate(4, 2)
      && snake.direction == Right
      && snake.fields == StartFields
      && snake.length == StartLength
    }

    /** The score: how much the snake has grown since the start. */
    function Score(): (s: int)
      reads this, snake
      ensures s + StartLength == snake.length
    {
      snake.length - StartLength
    }

    /** The start state on a board whose sides are both at least 8. */
    constructor (width: int, height: int)
      requires width >= MinSide && height >= MinSide
      ensures this.width == width && this.height == height
      ensures fresh(snake) && Initial() && Valid()
      ensures Score() == 0
    {
      this.width := width;
      this.height := height;
      snake := new Snake(Coordinate(4, 2), Right, StartFields, StartLength);
      new;
      assert StartFields.Keys == {Coordinate(2, 2), Coordinate(3, 2), Coordinate(4, 2)};
      FreeCellExists(snake.fields.Keys, width, height);
      food := NewFoodCoordinate();
    }

    /** The checked construction: a side below 8 is a configuration error. */
    static method Create(width: int, height: int) returns (game: Option<GameState>)
      ensures game.None? <==> width < MinSide || height < MinSide
      ensures game.Some? ==> fresh(game.value) && fresh(game.value.snake)
      ensures game.Some? ==> game.value.width == width && game.value.height == height
      ensures game.Some? ==> game.value.Initial() && game.value.Valid() && game.value.Score() == 0
    {
      if width < MinSide || height < MinSide {
        return None;
      }
      var g := new GameState(width, height);
      return Some(g);
    }

    /**
      A food cell: a uniformly random cell is drawn until one is free of the
      snake; the draw is modelled as a choice among the free cells.
     */
    method NewFoodCoordinate() returns (c: Coordinate)
      requires exists free :: InBounds(free, width, height) && free !in snake.fields
      ensures InBounds(c, width, height) && c !in snake.fields
    {
      ghost var free :| InBounds(free, width, height) && free !in snake.fields;
      assert Coordinate(free.x, free.y) == free;
      var x, y :| 0 <= x < width && 0 <= y < height && Coordinate(x, y) !in snake.fields;
      c := Coordinate(x, y);
    }

    /**
      One tick with `pending` the key presses queued since the last one. When
      the tick eats the food, the board after the move must still have a free
      cell, so that new food can be placed.
     */
    method Step(pending: seq<Direction>) returns (outcome: MoveOutcome)
      requires Valid()
      requires Advance(snake.head, Turn(snake.direction, LastRequested(pending))) == food ==>
                 |Countdown(snake.fields)[food := snake.length]| < width * height
      modifies this, snake
      ensures snake == old(snake) && Valid()
      ensures snake.direction == Turn(old(snake.direction), LastRequested(pending))
      ensures outcome == GameOver <==>
                Collides(Advance(old(snake.head), snake.direction), old(snake.fields), width, height)
      ensures outcome == GameOver ==>
                && snake.head == old(snake.head) && snake.fields == old(snake.fields)
                && snake.length == old(snake.length) && food == old(food)
      ensures outcome == Moved ==>
                && snake.head == Advance(old(snake.head), snake.direction)
                && snake.fields == Countdown(old(snake.fields))[snake.head := old(snake.length)]
      ensures outcome == Moved && snake.head == old(food) ==>
                && snake.length == old(snake.length) + 1 && Score() == old(Score()) + 1
                && snake.fields[snake.head] == snake.length - 1
      ensures outcome == Moved && snake.head != old(food) ==>
                && snake.length == old(snake.length) && food == old(food)
                && snake.fields[snake.head] == snake.length
    {
      outcome := snake.Move(width, height, pending);
      if outcome == GameOver {
        return;
      }
      if snake.head == food {
        snake.length := snake.length + 1;
        FreeCellExists(snake.fields.Keys, width, height);
        food := NewFoodCoordinate();
      }
    }
  }

  /** A fresh 20 x 15 game scores 0; a reversal request does not turn the snake. */
  method FreshGameScenario() {
    var game := new GameState(20, 15);
    assert game.Score() == 0;
    // A three-segment snake leaves the 300-cell board far from full.
    TickKeepsBody(game.snake.head, game.snake.fields, game.snake.length, 20, 15, game.food);
    var outcome := game.Step([Down, Left]);
    assert game.snake.direction == Right;
    assert outcome == Moved && game.snake.head == Coordinate(5, 2);
    assert game.Score() == 0 || game.Score() == 1;
  }

  /** On an 8 x 8 board a head at the right edge heading Right ends the game. */
  method BoundaryScenario() {
    var snake := new Snake(Coordinate(7, 4), Right, map[Coordinate(6, 4) := 1, Coordinate(7, 4) := 2], 2);
    var outcome := snake.Move(8, 8, []);
    assert outcome == GameOver;
    assert snake.head == Coordinate(7, 4);
  }

  /** The start snake forced to head Left runs into its own segment (3,2). */
  method SelfCollisionScenario() {
    var snake := new Snake(Coordinate(4, 2), Left, StartFields, StartLength);
    var outcome := snake.Move(20, 15, [Left]);
    assert outcome == GameOver;
    assert snake.fields == StartFields;
  }
}
