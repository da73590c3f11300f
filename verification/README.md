# Snake state machine

A model of the two terminal snake games of the repository: the interactive
game (`snake2.py`, keys read by a background thread) and the autoplay game
(`snake_game.py`, moves picked at random). Both keep their state in module
globals: the snake's body (a list of (row, column) cells, head first), the
direction, the food cell and the score, plus in the interactive game a
`game_over` flag and the input slot `input_direction`. Each tick maps a key
(`w`, `s`, `a`, `d`) to a unit direction, offers it to `change_direction`
(which ignores an exact reversal), and calls `move_snake`. That call ends the
game on a wall or self collision, grows the snake and re-places the food on
food, and otherwise slides the snake forward one cell.

- `snake_rules.dfy` (module `SnakeRules`) holds what the two games share:
  - the 20 x 10 grid;
  - the four directions and the key map;
  - the reversal rule (`Turn`);
  - the pure effect of one move (`Advance`: a crash, or the new body and
    whether the snake ate);
  - the rejection-sampling loop that places food (`PlaceFood`).
- `snake2.dfy` (module `Snake2`) is the interactive game as a class `Game`
  whose fields are the globals. Its methods `ChangeDirection`, `MoveSnake`,
  `Receive` (the input thread's write), `Tick` (one loop body) and `Play`
  (the game loop) update them in place.
- `snake_game.dfy` (module `SnakeGame`) is the autoplay game. It has no
  flag, `MoveSnake` returns a boolean, `PlayMove` is one loop body, and
  `Play` breaks on `false`.

Both `Play` methods return a ghost trace: the state before each tick and
after the last one. Each step of the trace is the effect of one move
(`MovesTo`) from the state as steered by that tick's key.

Randomness is a stream of draws, `draws: nat -> Cell`, that each game reads
in order. `draws(0)` is the first food, and every later food placement takes
draws until one is off the snake. Every `Game` keeps an invariant `Valid()`:
- the body is non-empty, its cells are distinct and on the grid;
- the direction is one of the four unit vectors;
- the food is on the grid, and it lies on the snake only while the snake is
  one cell long;
- `score == |snake| - 1`, so every growth move adds exactly one cell and one
  point;
- the stream is fair: every cell of the grid keeps coming up.

A pigeonhole lemma (`FreeCellExists`) shows that a snake shorter than the
grid leaves a cell free. With a fair stream, that is what makes the food
loop stop.

Behaviours of the code that the model keeps:
- The initial food is drawn without looking at the snake, so it may lie on
  the one-cell starting snake. After every move that does not crash, the
  food is off the snake. A growth move draws it off the new body. A plain
  move leaves the food where it was, which is not the new head, and drops
  the one cell the food could have shared with a one-cell snake
  (`FoodOffSnakeAfterStep`).
- A collision is checked against the whole body before the tail moves.
  Moving into the current tail cell therefore ends the game
  (`TailCellIsAnObstacle`).
- The input slot is reset to `None` after a tick only when it is truthy. An
  empty line is falsy in Python, so it stays in the slot, where it has no
  effect.

## Model

| member | source | states |
|---|---|---|
| `SnakeRules.KeyDirection` | snake2.py:70-78 | exactly the tokens `w`, `a`, `s`, `d` name a direction, and the direction named is a unit vector |
| `SnakeRules.KeyMapIsBijective` | snake_game.py:51-66 | the four moves map one-to-one onto the four unit directions |
| `SnakeRules.Turn` | snake2.py:50-53 | change_direction leaves either the old direction or the request, and from unit directions the result is a unit direction that never reverses the old one |
| `SnakeRules.TurnNeverReverses` | snake2.py:50-53 | from unit directions, change_direction keeps the direction exactly when the request is the same direction or its reversal, takes the request exactly when it is not a reversal, and never ends up reversing the current direction |
| `SnakeRules.ReversalHitsNeck` | snake2.py:50-53 | when the second cell is where the head came from, the reversed direction runs the head into it and the move crashes whatever the food, which is what the reversal rule prevents |
| `SnakeRules.Advance` | snake2.py:34-48 | a move crashes exactly when the new head is off the grid or on the body; otherwise the new body starts with the new head, it ate exactly when the new head is the food, and its length grows by one on food and stays the same otherwise |
| `SnakeRules.AdvanceKeepsBody` | snake2.py:34-48 | a move that does not crash keeps the body distinct and on the grid; on food it keeps every old cell behind the head (length + 1), else every cell shifts one place back and the last is dropped (same length) |
| `SnakeRules.FoodOffSnakeAfterStep` | snake2.py:40-48 | after a plain move the unchanged food is off the new body, provided it was on the old body only while that body was one cell long |
| `SnakeRules.TailCellIsAnObstacle` | snake2.py:35-39 | the six-cell snake turning up into its own tail cell crashes, because the collision test runs before the tail is popped |
| `SnakeRules.FreeCellExists` | snake2.py:43-46 | a snake of distinct cells shorter than the 200 grid cells leaves some grid cell free |
| `SnakeRules.GridBound` | snake2.py:43-46 | a snake of distinct cells on the grid has at most 200 cells, so the food loop hangs only when a growth move makes the snake exactly fill the grid |
| `SnakeRules.FreeDrawAhead` | snake_game.py:37-40 | with a fair stream of draws, a draw that is off such a snake always lies ahead, so the food loop ends |
| `SnakeRules.PlaceFood` | snake2.py:43-46 | the food loop returns the first draw, from the current position on, that is not on the snake, and reports where it stopped |
| `Snake2.Steer` | snake2.py:70-79 | a tick's direction is change_direction applied to the key's direction when the slot holds a truthy `w`, `a`, `s` or `d`, and the unchanged direction for every other slot content |
| `Snake2.SteerOnlyFollowsKeys` | snake2.py:70-79 | a tick keeps a unit direction a unit direction, never reverses it, and changes it only for a pending `w`, `a`, `s` or `d` |
| `Snake2.Consume` | snake2.py:70-79 | the slot is reset to None after a tick exactly when it was truthy, recognised key or not; None and the empty string stay |
| `Snake2.Deliver` | snake2.py:55-58 | after the input thread writes several lines, the slot holds the last one, or its old content if no line came |
| `Snake2.ReplayExtends` | snake2.py:66-81 | a record of ticks (slot read, steered move from one state to the next, no crash before the last tick) grows by one tick |
| `Snake2.Game.constructor` | snake2.py:14-20 | the game starts as snake `[(5, 5)]`, direction right, score 0, no game over, empty input slot, food from the first draw |
| `Snake2.Game.ChangeDirection` | snake2.py:50-53 | an exact reversal leaves the direction unchanged; any other request, the same direction included, replaces it |
| `Snake2.Game.MoveSnake` | snake2.py:32-48 | the state moves as `MovesTo` says: on a collision game_over is set and snake, food, score are unchanged; a plain move slides the body, keeping score and food; a growth move adds the head, adds one to score and places new food; after any move that does not crash the food is off the snake; the invariant is kept |
| `Snake2.Game.Receive` | snake2.py:55-58 | the input thread overwrites the single input slot with the line read |
| `Snake2.Game.ReceiveAll` | snake2.py:55-58 | the lines read between two ticks are written one after the other, leaving the slot as `Deliver` says |
| `Snake2.Game.Tick` | snake2.py:70-81 | one loop body: the direction becomes `Steer` of the slot, the slot becomes `Consume` of it, the move from the steered state is `MovesTo`, game_over is set exactly on a crash, and otherwise the food is off the snake |
| `Snake2.Game.Play` | snake2.py:66-83 | the trace starts at the old state and ends at the new one; tick t reads the slot left by tick t - 1 with that tick's lines written into it and moves from the steered state; no tick but the last crashed; game_over ends the loop exactly after the crashing tick, no tick runs when it was already set, and without a crash or a hang every scripted tick runs |
| `Snake2.RightwardRun` | snake2.py:34-39 | from `[(5, 5)]` heading right with no input and no food on row 5, fourteen ticks put the head at (5, 19) and the fifteenth sets game_over and leaves the snake as it was |
| `SnakeGame.Game.constructor` | snake_game.py:12-16 | the game starts as snake `[(5, 5)]`, direction right, score 0, food from the first draw |
| `SnakeGame.Game.ChangeDirection` | snake_game.py:45-48 | an exact reversal leaves the direction unchanged; any other request replaces it |
| `SnakeGame.Game.MoveSnake` | snake_game.py:27-43 | returns false exactly on a wall or self collision; the state moves as `MovesTo` says (unchanged on a collision, plain or growth move otherwise); after a true result the food is off the snake; the invariant is kept |
| `SnakeGame.Game.PlayMove` | snake_game.py:58-68 | one loop body: the move goes through the key map and change_direction, then move_snake moves the turned state as `MovesTo` says and its result is returned |
| `SnakeGame.Game.Play` | snake_game.py:54-69 | the trace starts at the old state and ends at the new one; each step moves from the state turned by that tick's move; no move but the last crashed; `crashed` holds exactly when the last move crashed, and without a crash or a hang every scripted move is played |

## Left out

- Rendering (`print_board`, the `os.system` screen clear, the "Game Over!"
  line) and `time.sleep` tick timing: output and timing only.
- The input thread's concurrency (snake2.py:55-63): the model has its
  effect only, a `Receive` that overwrites the slot between ticks. Ticks are
  atomic in the model. The source's unsynchronised read-then-reset of the
  slot can lose a line that arrives between lines 70 and 79; the model does
  not capture that race. The thread's `while not game_over` exit and daemon
  shutdown are not modelled.
- `Snake2.Game.Receive`: takes the line after `strip().lower()`. Python's
  Unicode whitespace stripping and case folding are not modelled.
- `random.randint` and `random.choice`: draws are a caller-supplied stream,
  and autoplay moves are a caller-supplied script of `w`/`a`/`s`/`d`. No
  distribution is modelled. That rejection sampling stops is assumed as
  fairness of the stream: every cell keeps being drawn.
- A full grid: the source's food loop never ends once a growth move makes
  the snake cover all 200 cells. `MoveSnake`, `Tick` and `PlayMove` require
  that a growth move leaves a cell free. Both `Play` methods stop before
  such a tick and report `hung` instead of looping forever.
- `Snake2.Game.Play`: runs a finite script of ticks instead of an unbounded
  loop, and returns `hung` where the source would never return.
- `SnakeGame.Game.Play`: runs a finite script of moves instead of an
  unbounded loop, and returns `hung` where the source would never return.
- `calculator.py` (a wrapper over Python `eval`) and `myapp/main_twoagent.py`
  (environment and file reading, logging, agent orchestration): not part of
  this model.
