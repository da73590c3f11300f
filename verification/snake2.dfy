/**
 * The interactive game of snake2.py. Its module globals (snake, direction,
 * food, score, game_over and the input slot input_direction) are the fields
 * of one Game object; the random module is the stream of draws the object
 * reads from, and `drawn` counts the draws used so far.
 */
module Snake2 {
  import opened SnakeRules

  /** Python truthiness of the input slot: None and the empty string are
      false. */
  predicate Truthy(pending: Option<string>) {
    pending.Some? && pending.value != ""
  }

  /** The direction after the first half of a tick: a truthy pending key that
      names a direction is passed to change_direction; any other token
      leaves the direction alone. */
  function Steer(direction: Vec, pending: Option<string>): (r: Vec)
    ensures Truthy(pending) && pending.value in KEYS ==> r == Turn(direction, KeyDirection(pending.value).value)
    ensures !(Truthy(pending) && pending.value in KEYS) ==> r == direction
  {
    if Truthy(pending) then
      match KeyDirection(pending.value)
      case Some(d) => Turn(direction, d)
      case None => direction
    else direction
  }

  /** The slot after a tick: reset to None when it was truthy. */
  function Consume(pending: Option<string>): (r: Option<string>)
    ensures Truthy(pending) ==> r == None
    ensures !Truthy(pending) ==> r == pending
  {
    if Truthy(pending) then None else pending
  }

  /** The slot after the input thread has written `lines` into it, one
      after the other: the last line, or the old content if none came. */
  function Deliver(pending: Option<string>, lines: seq<string>): (r: Option<string>)
    ensures lines == [] ==> r == pending
    ensures lines != [] ==> r == Some(lines[|lines| - 1])
  {
    if lines == [] then pending else Some(lines[|lines| - 1])
  }

  /** The slot at the end of tick t - 1 (the initial slot for t = 0). */
  function SlotAfter(start: Option<string>, slots: seq<Option<string>>, t: nat): Option<string>
    requires t <= |slots|
  {
    if t == 0 then start else Consume(slots[t - 1])
  }

  /** The snapshot move_snake starts from on tick t: the direction has
      been steered by the slot of that tick. */
  function Steered(s: Snapshot, slot: Option<string>): Snapshot {
    Aim(s, Steer(s.direction, slot))
  }

/** `trace` and `slots` record `|slots|` ticks of the game loop from the
      slot content `start`: tick t reads the slot left by tick t - 1 with
      arrivals[t] written into it, steers, and moves from trace[t] to
      trace[t + 1]; every tick but the last did not crash. */
  ghost predicate Replays(start: Option<string>, arrivals: seq<seq<string>>,
                          trace: seq<Snapshot>, slots: seq<Option<string>>)
  {
    && |trace| == |slots| + 1 && |slots| <= |arrivals|
    && (forall t :: 0 <= t < |trace| ==> |trace[t].snake| >= 1)
    && (forall t {:trigger arrivals[t]} :: 0 <= t < |slots| ==> slots[t] == Deliver(SlotAfter(start, slots, t), arrivals[t]))
    && (forall t :: 0 <= t < |slots| ==> MovesTo(Steered(trace[t], slots[t]), trace[t + 1]))
    && (forall t :: 0 <= t < |slots| - 1 ==> !Crashes(Steered(trace[t], slots[t])))
  }

  /** A record of ticks grows by one more tick. */
  lemma ReplayExtends(start: Option<string>, arrivals: seq<seq<string>>,
                      trace: seq<Snapshot>, slots: seq<Option<string>>, slot: Option<string>, next: Snapshot)
    requires Replays(start, arrivals, trace, slots) && |slots| < |arrivals|
    requires slot == Deliver(SlotAfter(start, slots, |slots|), arrivals[|slots|])
    requires MovesTo(Steered(trace[|slots|], slot), next) && |next.snake| >= 1
    requires |slots| > 0 ==> !Crashes(Steered(trace[|slots| - 1], slots[|slots| - 1]))
    ensures Replays(start, arrivals, trace + [next], slots + [slot])
  {
    var trace', slots' := trace + [next], slots + [slot];
    forall t | 0 <= t < |slots'| ensures SlotAfter(start, slots', t) == SlotAfter(start, slots, t) {
    }
  }

  /** A tick changes the direction only for a recognised key, and never
      turns a unit direction into its reversal. */
  lemma SteerOnlyFollowsKeys(direction: Vec, pending: Option<string>)
    requires IsUnit(direction)
    ensures IsUnit(Steer(direction, pending))
    ensures !Reverses(direction, Steer(direction, pending))
    ensures Steer(direction, pending) != direction ==> Truthy(pending) && pending.value in KEYS
  {
    if Truthy(pending) && KeyDirection(pending.value).Some? {
      TurnNeverReverses(direction, KeyDirection(pending.value).value);
    }
  }

  class Game {
    var snake: seq<Cell>
    var direction: Vec
    var food: Cell
    var score: int
    var gameOver: bool
    /** input_direction: the single slot the input thread writes into. */
    var pending: Option<string>
    /** The random draws; the game has used draws(0) .. draws(drawn - 1). */
    const draws: Draws
    var drawn: nat

    /** The snake is non-empty, its cells are distinct and on the grid, the
        direction is a unit vector, the food is on the grid and lies on the
        snake only while the snake is one cell long, and the score counts
        the growth moves. */
    ghost predicate Valid()
      reads this
    {
      && |snake| >= 1 && Distinct(snake) && InGrid(snake)
      && IsUnit(direction)
      && InBounds(food) && (food in snake ==> |snake| == 1)
      && score == |snake| - 1
      && DrawsInBounds(draws) && Fair(draws)
    }

    function Snap(): Snapshot
      reads this
    {
      Snapshot(snake, direction, food, score)
    }

    /** The initial state: one cell at (5, 5) heading right, no score, no
        pending input, and a first food draw that is not checked against
        the snake. */
    constructor (draws: Draws)
      requires DrawsInBounds(draws) && Fair(draws)
      ensures Valid()
      ensures this.draws == draws
      ensures snake == [(5, 5)] && direction == RIGHT && score == 0
      ensures food == draws(0) && drawn == 1
      ensures !gameOver && pending == None
    {
      this.draws := draws;
      snake := [(5, 5)];
      direction := RIGHT;
      food := draws(0);
      drawn := 1;
      score := 0;
      gameOver := false;
      pending := None;
    }

    /** change_direction: an exact reversal is ignored, any other request
        (the current direction included) replaces the direction. */
    method ChangeDirection(requested: Vec)
      modifies this`direction
      ensures direction == Turn(old(direction), requested)
      ensures Reverses(old(direction), requested) ==> direction == old(direction)
      ensures !Reverses(old(direction), requested) ==> direction == requested
    {
      if (direction.0 + requested.0, direction.1 + requested.1) != (0, 0) {
        direction := requested;
      }
    }

    /** move_snake: a collision sets game_over and changes nothing else; a
        growth move puts the new head in front, adds one to the score and
        draws food until it is off the snake; a plain move puts the new head
        in front and pops the tail. After either the food is off the snake.
        The only precondition is the one the source loop needs to stop:
        after a growth move some cell is free. */
    method MoveSnake()
      requires Valid()
      requires Eats(snake, direction, food) ==> |snake| + 1 < HEIGHT * WIDTH
      modifies this
      ensures Valid()
      ensures MovesTo(old(Snap()), Snap()) && pending == old(pending)
      ensures gameOver <==> old(gameOver) || Crashes(old(Snap()))
      ensures !Crashes(old(Snap())) ==> food !in snake
      ensures Crashes(old(Snap())) ==> drawn == old(drawn)
    {
      AdvanceKeepsBody(snake, direction, food);
      if Advance(snake, direction, food).Step? && !Advance(snake, direction, food).ate {
        FoodOffSnakeAfterStep(snake, direction, food);
      }
      var newHead := (snake[0].0 + direction.0, snake[0].1 + direction.1);
      if newHead in snake
        || newHead.0 < 0 || newHead.0 >= HEIGHT
        || newHead.1 < 0 || newHead.1 >= WIDTH
      {
        gameOver := true;
        return;
      }
      snake := [newHead] + snake;
      if newHead == food {
        score := score + 1;
        FreeDrawAhead(draws, drawn, snake);
        food, drawn := PlaceFood(draws, drawn, snake);
      } else {
        snake := snake[..|snake| - 1];
      }
    }

    /** The input thread delivers a line: it overwrites the slot, so of the
        lines that arrive between two ticks only the last survives. */
    method Receive(line: string)
      modifies this`pending
      ensures pending == Some(line)
    {
      pending := Some(line);
    }

    /** The input thread delivers the lines read between two ticks, one
        after the other. */
    method ReceiveAll(lines: seq<string>)
      modifies this`pending
      ensures pending == Deliver(old(pending), lines)
    {
      for k := 0 to |lines|
        invariant pending == Deliver(old(pending), lines[..k])
      {
        Receive(lines[k]);
      }
      assert lines[..|lines|] == lines;
    }

    /** One iteration of the game loop body: a truthy pending key is mapped
        to a direction and offered to change_direction, the slot is reset to
        None (recognised or not), and the snake moves. */
    method Tick()
      requires Valid() && !gameOver
      requires Eats(snake, Steer(direction, pending), food) ==> |snake| + 1 < HEIGHT * WIDTH
      modifies this
      ensures Valid()
      ensures direction == Steer(old(direction), old(pending))
      ensures pending == Consume(old(pending))
      ensures MovesTo(Aim(old(Snap()), direction), Snap())
      ensures gameOver <==> Crashes(Aim(old(Snap()), direction))
      ensures !gameOver ==> food !in snake
    {
      if pending.Some? && pending.value != "" {
        var key := pending.value;
        if key == "w" {
          ChangeDirection(UP);
        } else if key == "s" {
          ChangeDirection(DOWN);
        } else if key == "a" {
          ChangeDirection(LEFT);
        } else if key == "d" {
          ChangeDirection(RIGHT);
        }
        pending := None;
      }
      MoveSnake();
    }

    /** The game loop `while not game_over`, run against a script of input:
        arrivals[t] holds the lines the input thread reads before tick t.
        `trace` holds the state before each tick and after the last one, and
        `slots` the slot each tick reads. The loop stops at the first
        collision and runs no tick after it. Where the source would grow the
        snake to fill the whole grid and then draw food forever, the model
        stops before that tick and reports `hung`. */
    method Play(arrivals: seq<seq<string>>)
      returns (ticks: nat, hung: bool, ghost trace: seq<Snapshot>, ghost slots: seq<Option<string>>)
      requires Valid()
      modifies this
      ensures Valid()
      ensures ticks <= |arrivals| && |trace| == ticks + 1 && |slots| == ticks
      ensures trace[0] == old(Snap()) && trace[ticks] == Snap()
      ensures forall t :: 0 <= t <= ticks ==> |trace[t].snake| >= 1
      ensures forall t {:trigger arrivals[t]} :: 0 <= t < ticks ==> slots[t] == Deliver(SlotAfter(old(pending), slots, t), arrivals[t])
      ensures forall t :: 0 <= t < ticks ==> MovesTo(Steered(trace[t], slots[t]), trace[t + 1])
      ensures forall t :: 0 <= t < ticks - 1 ==> !Crashes(Steered(trace[t], slots[t]))
      ensures gameOver <==> old(gameOver) || (ticks > 0 && Crashes(Steered(trace[ticks - 1], slots[ticks - 1])))
      ensures old(gameOver) ==> ticks == 0 && !hung && pending == old(pending)
      ensures !hung ==> pending == SlotAfter(old(pending), slots, ticks)
      ensures hung ==> !gameOver && ticks < |arrivals|
      ensures hung ==> pending == Deliver(SlotAfter(old(pending), slots, ticks), arrivals[ticks])
      ensures hung ==> Eats(snake, Steer(direction, pending), food) && |snake| + 1 == HEIGHT * WIDTH
      ensures !gameOver && !hung ==> ticks == |arrivals|
    {
      ticks, hung, trace, slots := 0, false, [Snap()], [];
      while !gameOver && ticks < |arrivals|
        invariant Valid()
        invariant Replays(old(pending), arrivals, trace, slots) && |slots| == ticks
        invariant trace[0] == old(Snap()) && trace[ticks] == Snap()
        invariant gameOver <==> old(gameOver) || (ticks > 0 && Crashes(Steered(trace[ticks - 1], slots[ticks - 1])))
        invariant old(gameOver) ==> ticks == 0
        invariant pending == SlotAfter(old(pending), slots, ticks)
      {
        ReceiveAll(arrivals[ticks]);
        var turned := Steer(direction, pending);
        if Eats(snake, turned, food) && |snake| + 1 >= HEIGHT * WIDTH {
          AdvanceKeepsBody(snake, turned, food);
          GridBound(Advance(snake, turned, food).body);
          hung := true;
          return;
        }
        ghost var slot := pending;
        Tick();
        ReplayExtends(old(pending), arrivals, trace, slots, slot, Snap());
        slots := slots + [slot];
        trace := trace + [Snap()];
        ticks := ticks + 1;
      }
    }
  }

  /** From the initial state with no input and the food off row 5, fourteen
      ticks carry the head from (5, 5) to (5, 19), and the fifteenth runs it
      into the right wall: the game is over and the snake is left as it was. */
  method RightwardRun() returns (head: Cell, over: bool, body: seq<Cell>)
    ensures head == (5, 19)
    ensures over && body == [(5, 19)]
  {
    SweepIsFair();
    var game := new Game(Sweep);
    assert game.food == (0, 0);
    for i := 0 to 14
      invariant game.Valid() && !game.gameOver
      invariant game.snake == [(5, 5 + i)]
      invariant game.direction == RIGHT && game.pending == None && game.food == (0, 0)
    {
      game.Tick();
    }
    head := game.snake[0];
    game.Tick();
    over, body := game.gameOver, game.snake;
  }
}
