/**
 * The autoplay game of snake_game.py. The same state as the interactive
 * game minus the game_over flag and the input slot: move_snake reports a
 * collision by returning False, and the game loop stops on it. The moves
 * that random.choice would pick are given as a script.
 */
module SnakeGame {
  import opened SnakeRules

  class Game {
    var snake: seq<Cell>
    var direction: Vec
    var food: Cell
    var score: int
    /** The random draws; the game has used draws(0) .. draws(drawn - 1). */
    const draws: Draws
    var drawn: nat

    /** The snake is non-empty, its cells are distinct and on the grid, the
        direction is a unit vector, the food is on the grid and lies on the
        snake only while the snake is one cell long, and the score counts
        the growth moves. */
    ghost predicate Valid()
      reads this
    {
      && |snake| >= 1 && Distinct(snake) && InGrid(snake)
      && IsUnit(direction)
      && InBounds(food) && (food in snake ==> |snake| == 1)
      && score == |snake| - 1
      && DrawsInBounds(draws) && Fair(draws)
    }

    function Snap(): Snapshot
      reads this
    {
      Snapshot(snake, direction, food, score)
    }

    /** The initial state: one cell at (5, 5) heading right, no score, and a
        first food draw that is not checked against the snake. */
    constructor (draws: Draws)
      requires DrawsInBounds(draws) && Fair(draws)
      ensures Valid()
      ensures this.draws == draws
      ensures snake == [(5, 5)] && direction == RIGHT && score == 0
      ensures food == draws(0) && drawn == 1
    {
      this.draws := draws;
      snake := [(5, 5)];
      direction := RIGHT;
      food := draws(0);
      drawn := 1;
      score := 0;
    }

    /** change_direction: an exact reversal is ignored, any other request
        (the current direction included) replaces the direction. */
    method ChangeDirection(requested: Vec)
      modifies this`direction
      ensures direction == Turn(old(direction), requested)
      ensures Reverses(old(direction), requested) ==> direction == old(direction)
      ensures !Reverses(old(direction), requested) ==> direction == requested
    {
      if (direction.0 + requested.0, direction.1 + requested.1) != (0, 0) {
        direction := requested;
      }
    }

    /** move_snake: on a collision it returns false and changes nothing; a
        growth move puts the new head in front, adds one to the score and
        draws food until it is off the snake; a plain move puts the new head
        in front and pops the tail. Both return true, and after both the
        food is off the snake. */
    method MoveSnake() returns (moved: bool)
      requires Valid()
      requires Eats(snake, direction, food) ==> |snake| + 1 < HEIGHT * WIDTH
      modifies this
      ensures Valid()
      ensures MovesTo(old(Snap()), Snap())
      ensures moved <==> !Crashes(old(Snap()))
      ensures moved ==> food !in snake
      ensures !moved ==> drawn == old(drawn)
    {
      AdvanceKeepsBody(snake, direction, food);
      if Advance(snake, direction, food).Step? && !Advance(snake, direction, food).ate {
        FoodOffSnakeAfterStep(snake, direction, food);
      }
      var newHead := (snake[0].0 + direction.0, snake[0].1 + direction.1);
      if newHead in snake
        || newHead.0 < 0 || newHead.0 >= HEIGHT
        || newHead.1 < 0 || newHead.1 >= WIDTH
      {
        return false;
      }
      snake := [newHead] + snake;
      if newHead == food {
        score := score + 1;
        FreeDrawAhead(draws, drawn, snake);
        food, drawn := PlaceFood(draws, drawn, snake);
      } else {
        snake := snake[..|snake| - 1];
      }
      return true;
    }

    /** The snapshot move_snake starts from on a tick whose chosen move is
        `move`: change_direction has already been applied. */
    static function Turned(s: Snapshot, move: string): Snapshot
      requires move in KEYS
    {
      Aim(s, Turn(s.direction, KeyDirection(move).value))
    }

    /** One tick of the game loop: the chosen move goes through the key map
        to change_direction, then move_snake runs; returns what move_snake
        returned. */
    method PlayMove(move: string) returns (moved: bool)
      requires Valid() && move in KEYS
      requires Eats(snake, Turn(direction, KeyDirection(move).value), food) ==> |snake| + 1 < HEIGHT * WIDTH
      modifies this
      ensures Valid()
      ensures MovesTo(Turned(old(Snap()), move), Snap())
      ensures moved <==> !Crashes(Turned(old(Snap()), move))
    {
      if move == "w" {
        ChangeDirection(UP);
      } else if move == "s" {
        ChangeDirection(DOWN);
      } else if move == "a" {
        ChangeDirection(LEFT);
      } else if move == "d" {
        ChangeDirection(RIGHT);
      }
      moved := MoveSnake();
    }

    /** The game loop `while True`: each tick plays the chosen move, and the
        loop breaks exactly when move_snake returns false. `trace` holds the
        state before each tick and after the last one. Where the source
        would grow the snake to fill the whole grid and then draw food
        forever, the model stops before that tick and reports `hung`. */
    method Play(moves: seq<string>) returns (ticks: nat, crashed: bool, hung: bool, ghost trace: seq<Snapshot>)
      requires Valid()
      requires forall i :: 0 <= i < |moves| ==> moves[i] in KEYS
      modifies this
      ensures Valid()
      ensures ticks <= |moves| && |trace| == ticks + 1
      ensures trace[0] == old(Snap()) && trace[ticks] == Snap()
      ensures forall t :: 0 <= t <= ticks ==> |trace[t].snake| >= 1
      ensures forall t :: 0 <= t < ticks ==> MovesTo(Turned(trace[t], moves[t]), trace[t + 1])
      ensures forall t :: 0 <= t < ticks - 1 ==> !Crashes(Turned(trace[t], moves[t]))
      ensures crashed <==> ticks > 0 && Crashes(Turned(trace[ticks - 1], moves[ticks - 1]))
      ensures hung ==> !crashed && ticks < |moves|
      ensures hung ==> Eats(snake, Turn(direction, KeyDirection(moves[ticks]).value), food)
      ensures hung ==> |snake| + 1 == HEIGHT * WIDTH
      ensures !crashed && !hung ==> ticks == |moves|
    {
      ticks, crashed, hung, trace := 0, false, false, [Snap()];
      while ticks < |moves|
        invariant Valid()
        invariant ticks <= |moves| && |trace| == ticks + 1
        invariant trace[0] == old(Snap()) && trace[ticks] == Snap()
        invariant forall t :: 0 <= t <= ticks ==> |trace[t].snake| >= 1
        invariant forall t :: 0 <= t < ticks ==> MovesTo(Turned(trace[t], moves[t]), trace[t + 1])
        invariant forall t :: 0 <= t < ticks ==> !Crashes(Turned(trace[t], moves[t]))
        invariant !crashed && !hung
      {
        var move := moves[ticks];
        var turned := Turn(direction, KeyDirection(move).value);
        if Eats(snake, turned, food) && |snake| + 1 >= HEIGHT * WIDTH {
          AdvanceKeepsBody(snake, turned, food);
          GridBound(Advance(snake, turned, food).body);
          hung := true;
          return;
        }
        var moved := PlayMove(move);
        trace := trace + [Snap()];
        ticks := ticks + 1;
        if !moved {
          crashed := true;
          return;
        }
      }
    }
  }
}
