/**
 * The rules that the interactive game (snake2.py) and the autoplay game
 * (snake_game.py) have in common: the 20 x 10 grid, the four directions and
 * the keys that name them, the reversal policy of change_direction, the
 * effect of one move of the snake, and the rejection-sampling loop that
 * places new food.
 */
module SnakeRules {

  datatype Option<T> = None | Some(value: T)

  const WIDTH: int := 20
  const HEIGHT: int := 10

  /** A cell is (row, column); row 0 is the top of the board. */
  type Cell = (int, int)
  /** A direction is a (row, column) offset added to the head each tick. */
  type Vec = (int, int)

  const UP: Vec := (-1, 0)
  const DOWN: Vec := (1, 0)
  const LEFT: Vec := (0, -1)
  const RIGHT: Vec := (0, 1)

  /** The moves of the autoplay game, in the order of its `movements` list. */
  const KEYS: seq<string> := ["w", "a", "s", "d"]

  predicate InBounds(c: Cell) {
    0 <= c.0 < HEIGHT && 0 <= c.1 < WIDTH
  }

  predicate InGrid(body: seq<Cell>) {
    forall i :: 0 <= i < |body| ==> InBounds(body[i])
  }

  predicate Distinct(body: seq<Cell>) {
    forall i, j :: 0 <= i < j < |body| ==> body[i] != body[j]
  }

  predicate IsUnit(d: Vec) {
    d == UP || d == DOWN || d == LEFT || d == RIGHT
  }

  // ---------------------------------------------------------------------------
  // Directions
  // ---------------------------------------------------------------------------

  /** The request is the exact opposite of the current direction: the two
      offsets add up to (0, 0). */
  predicate Reverses(current: Vec, requested: Vec) {
    (current.0 + requested.0, current.1 + requested.1) == (0, 0)
  }

  /** The direction change_direction leaves behind: the request or the
      current direction, and from unit directions never a reversal. */
  function Turn(current: Vec, requested: Vec): (r: Vec)
    ensures r == current || r == requested
    ensures IsUnit(current) && IsUnit(requested) ==> IsUnit(r) && !Reverses(current, r)
  {
    if Reverses(current, requested) then current else requested
  }

  function Opposite(d: Vec): Vec {
    (-d.0, -d.1)
  }

  /** The key map of both game loops: w, s, a, d are up, down, left, right;
      every other token names no direction. */
  function KeyDirection(key: string): (r: Option<Vec>)
    ensures r.Some? <==> key in KEYS
    ensures r.Some? ==> IsUnit(r.value)
  {
    if key == "w" then Some(UP)
    else if key == "s" then Some(DOWN)
    else if key == "a" then Some(LEFT)
    else if key == "d" then Some(RIGHT)
    else None
  }

  /** The key map is one-to-one between the four keys and the four
      directions. */
  lemma KeyMapIsBijective(d: Vec, k1: string, k2: string)
    ensures IsUnit(d) <==> exists k :: k in KEYS && KeyDirection(k) == Some(d)
    ensures KeyDirection(k1).Some? && KeyDirection(k1) == KeyDirection(k2) ==> k1 == k2
  {
    if IsUnit(d) {
      var k := if d == UP then "w" else if d == DOWN then "s" else if d == LEFT then "a" else "d";
      assert k in KEYS && KeyDirection(k) == Some(d);
    }
  }

  /** change_direction never leaves the snake facing back along the way it
      came: from a unit direction and a unit request, the result is a unit
      direction, it is never the reversal of the current one, and it is the
      request exactly when the request is not a reversal. */
  lemma TurnNeverReverses(current: Vec, requested: Vec)
    requires IsUnit(current) && IsUnit(requested)
    ensures IsUnit(Turn(current, requested))
    ensures !Reverses(current, Turn(current, requested))
    ensures Turn(current, requested) == requested <==> !Reverses(current, requested)
    ensures Turn(current, requested) == current <==> (requested == current || requested == Opposite(current))
  {
  }

  // ---------------------------------------------------------------------------
  // One move of the snake
  // ---------------------------------------------------------------------------

  /** The cell the head moves into. */
  function Ahead(body: seq<Cell>, d: Vec): Cell
    requires |body| >= 1
  {
    (body[0].0 + d.0, body[0].1 + d.1)
  }

  /** The new head collides: it leaves the grid or lands on a cell of the
      snake as it is before the move (the tail cell included). */
  predicate Hits(head: Cell, body: seq<Cell>) {
    head in body || !InBounds(head)
  }

  /** The snake eats on this move: no collision, and the new head is the food. */
  predicate Eats(body: seq<Cell>, d: Vec, food: Cell)
    requires |body| >= 1
  {
    !Hits(Ahead(body, d), body) && Ahead(body, d) == food
  }

  /** What one move does to the body: a collision, or a new body and whether
      it ate. The new food of a growth move is drawn separately. */
  datatype Outcome = Crash | Step(body: seq<Cell>, ate: bool)

  function Advance(body: seq<Cell>, d: Vec, food: Cell): (r: Outcome)
    requires |body| >= 1
    ensures r.Crash? <==> Hits(Ahead(body, d), body)
    ensures r.Step? ==> (r.ate <==> Ahead(body, d) == food)
    ensures r.Step? ==> |r.body| == |body| + (if r.ate then 1 else 0) && r.body[0] == Ahead(body, d)
  {
    var head := Ahead(body, d);
    if Hits(head, body) then Crash
    else if head == food then Step([head] + body, true)
    else Step([head] + body[..|body| - 1], false)
  }

  /** A move that does not collide keeps the body a distinct, in-grid,
      non-empty sequence whose first cell is the new head. A growth move
      keeps every old cell behind the head (length + 1); a plain move shifts
      every cell one place back and drops the last one (same length). The
      outcome is a collision exactly when the new head hits. */
  lemma {:induction false} AdvanceKeepsBody(body: seq<Cell>, d: Vec, food: Cell)
    requires |body| >= 1 && Distinct(body) && InGrid(body)
    ensures Advance(body, d, food).Crash? <==> Hits(Ahead(body, d), body)
    ensures Advance(body, d, food).Step? ==>
      var next := Advance(body, d, food).body;
      && Distinct(next) && InGrid(next) && |next| >= 1
      && next[0] == Ahead(body, d)
      && (Advance(body, d, food).ate <==> Ahead(body, d) == food)
      && (Advance(body, d, food).ate ==> |next| == |body| + 1 && next[1..] == body)
      && (!Advance(body, d, food).ate ==>
            |next| == |body| && forall i :: 1 <= i < |body| ==> next[i] == body[i - 1])
  {
    var head := Ahead(body, d);
    if !Hits(head, body) {
      var next := Advance(body, d, food).body;
      assert next[1..] == if head == food then body else body[..|body| - 1];
      forall i, j | 0 <= i < j < |next| ensures next[i] != next[j] {
        if i == 0 {
          assert next[j] == body[j - 1];
        } else {
          assert next[i] == body[i - 1] && next[j] == body[j - 1];
        }
      }
      forall i | 0 <= i < |next| ensures InBounds(next[i]) {
        if i > 0 {
          assert next[i] == body[i - 1];
        }
      }
    }
  }

  /** Why reversals are refused: when the second cell is where the head came
      from, turning back runs the head into that cell. */
  lemma ReversalHitsNeck(body: seq<Cell>, d: Vec, food: Cell)
    requires |body| >= 2
    requires body[1] == (body[0].0 - d.0, body[0].1 - d.1)
    ensures Hits(Ahead(body, Opposite(d)), body)
    ensures Advance(body, Opposite(d), food).Crash?
  {
    assert Ahead(body, Opposite(d)) == body[1];
  }

  /** A self-collision: the six-cell snake whose head would move up into its
      own tail cell stops the game, although that tail cell would have been
      vacated by a plain move. */
  lemma TailCellIsAnObstacle()
    ensures Advance([(5, 5), (5, 4), (5, 3), (4, 3), (4, 4), (4, 5)], UP, (0, 0)).Crash?
  {
    var body := [(5, 5), (5, 4), (5, 3), (4, 3), (4, 4), (4, 5)];
    assert Ahead(body, UP) == body[5];
  }

  /** The food is off the snake after every move that does not crash,
      provided it lay on the snake at most while the snake was one cell
      long (the unchecked initial draw). A plain move keeps the food where
      it was: it is not the new head, and the one cell it could have shared
      with a one-cell snake is dropped. */
  lemma {:induction false} FoodOffSnakeAfterStep(body: seq<Cell>, d: Vec, food: Cell)
    requires |body| >= 1 && (food in body ==> |body| == 1)
    requires Advance(body, d, food).Step? && !Advance(body, d, food).ate
    ensures food !in Advance(body, d, food).body
  {
    var next := Advance(body, d, food).body;
    assert next == [Ahead(body, d)] + body[..|body| - 1];
  }

  // ---------------------------------------------------------------------------
  // Snapshots of a game's state
  // ---------------------------------------------------------------------------

  /** The state move_snake and change_direction act on. */
  datatype Snapshot = Snapshot(snake: seq<Cell>, direction: Vec, food: Cell, score: int)

  function Aim(s: Snapshot, d: Vec): Snapshot {
    s.(direction := d)
  }

  /** move_snake in this state runs into a wall or the body. */
  predicate Crashes(s: Snapshot)
    requires |s.snake| >= 1
  {
    Advance(s.snake, s.direction, s.food).Crash?
  }

  /** The effect of one call of move_snake, from `s` to `t`, with the new
      food of a growth move known only to be off the new snake. */
  ghost predicate MovesTo(s: Snapshot, t: Snapshot) {
    && |s.snake| >= 1
    && t.direction == s.direction
    && match Advance(s.snake, s.direction, s.food)
       case Crash => t.snake == s.snake && t.food == s.food && t.score == s.score
       case Step(body, ate) =>
         && t.snake == body
         && (ate ==> t.score == s.score + 1 && t.food !in body)
         && (!ate ==> t.score == s.score && t.food == s.food)
  }

  // ---------------------------------------------------------------------------
  // Free cells
  // ---------------------------------------------------------------------------

  /** Every cell of the grid, row by row. */
  function Cells(): seq<Cell> {
    seq(HEIGHT * WIDTH, i requires 0 <= i < HEIGHT * WIDTH => (i / WIDTH, i % WIDTH))
  }

  lemma CellsEnumerateGrid()
    ensures |Cells()| == HEIGHT * WIDTH
    ensures Distinct(Cells())
    ensures forall c :: InBounds(c) ==> c in Cells()
  {
    var cells := Cells();
    forall i, j | 0 <= i < j < |cells| ensures cells[i] != cells[j] {
      assert i == WIDTH * (i / WIDTH) + i % WIDTH;
      assert j == WIDTH * (j / WIDTH) + j % WIDTH;
    }
    forall c | InBounds(c) ensures c in cells {
      var i := c.0 * WIDTH + c.1;
      assert 0 <= i < HEIGHT * WIDTH;
      assert i / WIDTH == c.0 && i % WIDTH == c.1;
      assert cells[i] == c;
    }
  }

  lemma {:induction false} DistinctCellCount(body: seq<Cell>)
    requires Distinct(body)
    ensures |set c | c in body| == |body|
  {
    if body != [] {
      var rest := body[1..];
      assert Distinct(rest) by {
        forall i, j | 0 <= i < j < |rest| ensures rest[i] != rest[j] {
          assert rest[i] == body[i + 1] && rest[j] == body[j + 1];
        }
      }
      DistinctCellCount(rest);
      assert body[0] !in rest by {
        forall i | 0 <= i < |rest| ensures rest[i] != body[0] {
          assert rest[i] == body[i + 1];
        }
      }
      assert (set c | c in body) == {body[0]} + (set c | c in rest);
    }
  }

  lemma SubsetCount(small: set<Cell>, large: set<Cell>)
    requires small <= large
    ensures |small| <= |large|
  {
    assert large == small + (large - small);
  }

  /** Pigeonhole: a snake of distinct cells shorter than the number of grid
      cells leaves at least one cell of the grid free, so rejection sampling
      over the grid has something to find. */
  lemma FreeCellExists(body: seq<Cell>)
    requires Distinct(body) && |body| < HEIGHT * WIDTH
    ensures exists c :: InBounds(c) && c !in body
  {
    if forall c :: InBounds(c) ==> c in body {
      CellsEnumerateGrid();
      var all := set c | c in Cells();
      var taken := set c | c in body;
      assert all <= taken;
      DistinctCellCount(Cells());
      DistinctCellCount(body);
      SubsetCount(all, taken);
      assert false;
    }
  }

  /** A snake of distinct cells on the grid has at most as many cells as the
      grid. */
  lemma GridBound(body: seq<Cell>)
    requires Distinct(body) && InGrid(body)
    ensures |body| <= HEIGHT * WIDTH
  {
    CellsEnumerateGrid();
    DistinctCellCount(Cells());
    DistinctCellCount(body);
    SubsetCount(set c | c in body, set c | c in Cells());
  }

  // ---------------------------------------------------------------------------
  // Random food placement
  // ---------------------------------------------------------------------------

  /** The pairs of random.randint results, in the order they are drawn. */
  type Draws = nat -> Cell

  ghost predicate DrawsInBounds(draws: Draws) {
    forall j: nat :: InBounds(draws(j))
  }

  ghost predicate DrawnAfter(draws: Draws, c: Cell, from: nat) {
    exists j: nat :: from <= j && draws(j) == c
  }

  /** Every cell of the grid keeps being drawn: the assumption under which
      rejection sampling stops whenever a free cell exists. */
  ghost predicate Fair(draws: Draws) {
    forall c, from: nat :: InBounds(c) ==> DrawnAfter(draws, c, from)
  }

  /** The `while True` loop of move_snake that draws food until a draw is not
      on the snake. Starting at draw `from`, it returns the first free draw
      and the index of the draw after it. */
  method PlaceFood(draws: Draws, from: nat, body: seq<Cell>) returns (food: Cell, next: nat)
    requires exists j: nat :: from <= j && draws(j) !in body
    ensures from < next && food == draws(next - 1) && food !in body
    ensures forall j :: from <= j < next - 1 ==> draws(j) in body
  {
    ghost var bound: nat :| from <= bound && draws(bound) !in body;
    food := draws(from);
    next := from + 1;
    while food in body
      invariant from < next <= bound + 1
      invariant food == draws(next - 1)
      invariant forall j :: from <= j < next - 1 ==> draws(j) in body
      decreases bound + 1 - next
    {
      food := draws(next);
      next := next + 1;
    }
  }

  /** A fair stream always has a free draw ahead for a snake that leaves a
      cell free. */
  lemma FreeDrawAhead(draws: Draws, from: nat, body: seq<Cell>)
    requires Fair(draws) && Distinct(body) && |body| < HEIGHT * WIDTH
    ensures exists j: nat :: from <= j && draws(j) !in body
  {
    FreeCellExists(body);
    var c :| InBounds(c) && c !in body;
    assert DrawnAfter(draws, c, from);
  }

  /** The stream that walks the grid row by row over and over. */
  function Sweep(j: nat): Cell {
    Cells()[j % (HEIGHT * WIDTH)]
  }

  lemma SweepIsFair()
    ensures DrawsInBounds(Sweep) && Fair(Sweep)
  {
    CellsEnumerateGrid();
    forall j: nat ensures InBounds(Sweep(j)) {
      var i := j % (HEIGHT * WIDTH);
      assert Cells()[i] == (i / WIDTH, i % WIDTH);
    }
    forall c, from: nat | InBounds(c) ensures DrawnAfter(Sweep, c, from) {
      var i :| 0 <= i < |Cells()| && Cells()[i] == c;
      var j: nat := from * (HEIGHT * WIDTH) + i;
      assert j % (HEIGHT * WIDTH) == i;
      assert Sweep(j) == c;
    }
  }
}
