/**
 * The rules of the Win32 snake game: one timer tick (`MoveSnake`) and the
 * arrow-key handler, over the globals `snake`, `food`, `dir`, `gameOver`
 * and `score` on a `Width` by `Height` grid.
 *
 * `Step` is the rule as a function of the old state; the class `Game`
 * updates the globals in place and is proved to agree with it. The new food
 * position, which the game draws with `rand()`, is a parameter.
 */
module Snake {

  const Width: int := 20
  const Height: int := 20

  datatype Direction = Up | Down | Left | Right

  datatype Point = Point(x: int, y: int)

  /** The keys `WM_KEYDOWN` reacts to; every other key is `OtherKey`. */
  datatype Key = VkUp | VkDown | VkLeft | VkRight | OtherKey

  datatype GameState = GameState(snake: seq<Point>, food: Point, dir: Direction, gameOver: bool, score: int)

  function Opposite(d: Direction): Direction
  {
    match d
    case Up => Down
    case Down => Up
    case Left => Right
    case Right => Left
  }

  /** The cell next to `p` in direction `d`; `y` grows downwards. */
  function Advance(p: Point, d: Direction): Point
  {
    match d
    case Up => p.(y := p.y - 1)
    case Down => p.(y := p.y + 1)
    case Left => p.(x := p.x - 1)
    case Right => p.(x := p.x + 1)
  }

  predicate InGrid(p: Point)
  {
    0 <= p.x < Width && 0 <= p.y < Height
  }

  predicate Distinct(s: seq<Point>)
  {
    forall i, j :: 0 <= i < j < |s| ==> s[i] != s[j]
  }

  /** A snake that can be on the board: at least one segment, all on the grid, no two on one cell. */
  predicate WellFormed(s: seq<Point>)
  {
    s != [] && (forall i :: 0 <= i < |s| ==> InGrid(s[i])) && Distinct(s)
  }

  /** What every reachable state satisfies; the score is 10 per food eaten. */
  predicate Invariant(g: GameState)
  {
    WellFormed(g.snake) && InGrid(g.food) && g.score == 10 * (|g.snake| - 1)
  }

  /** The state the game starts in, with the first food position drawn. */
  function Initial(food: Point): GameState
  {
    GameState([Point(Width / 2, Height / 2)], food, Right, false, 0)
  }

  /** One `MoveSnake` call; `newFood` is where food is placed if this move eats. */
  function Step(g: GameState, newFood: Point): (r: GameState)
    requires g.snake != []
    ensures r.dir == g.dir
    ensures |g.snake| <= |r.snake| <= |g.snake| + 1
    ensures r.score - g.score == 10 * (|r.snake| - |g.snake|)
  {
    if g.gameOver then g
    else
      var head := Advance(g.snake[0], g.dir);
      if !InGrid(head) || head in g.snake then g.(gameOver := true)
      else if head == g.food then g.(snake := [head] + g.snake, score := g.score + 10, food := newFood)
      else g.(snake := [head] + g.snake[..|g.snake| - 1])
  }

  /** The `WM_KEYDOWN` rule: an arrow key turns the snake unless it asks for the opposite way. */
  function Turn(d: Direction, key: Key): (r: Direction)
    ensures r != Opposite(d)
    ensures key == OtherKey ==> r == d
  {
    match key
    case VkUp => if d != Down then Up else d
    case VkDown => if d != Up then Down else d
    case VkLeft => if d != Right then Left else d
    case VkRight => if d != Left then Right else d
    case OtherKey => d
  }

  // ---------------------------------------------------------------------------
  // The step rule

  /** Once the game is over, a tick changes nothing. */
  lemma StepWhenOverIsNoop(g: GameState, newFood: Point)
    requires g.snake != [] && g.gameOver
    ensures Step(g, newFood) == g
  {
  }

  /** The candidate head is one cell away from the old head, in the direction of travel. */
  lemma AdvanceMovesOneCell(p: Point, d: Direction)
    ensures var q := Advance(p, d);
      && (d == Up ==> q == Point(p.x, p.y - 1))
      && (d == Down ==> q == Point(p.x, p.y + 1))
      && (d == Left ==> q == Point(p.x - 1, p.y))
      && (d == Right ==> q == Point(p.x + 1, p.y))
      && Advance(q, Opposite(d)) == p
  {
  }

  /**
   * A head that leaves the grid or lands on any current segment, the tail
   * included, ends the game and leaves the snake, the score and the food as
   * they were.
   */
  lemma StepCollision(g: GameState, newFood: Point)
    requires g.snake != [] && !g.gameOver
    requires var head := Advance(g.snake[0], g.dir); !InGrid(head) || head in g.snake
    ensures Step(g, newFood) == g.(gameOver := true)
  {
  }

  /** A head that lands on the food grows the snake by that cell and adds exactly 10 to the score. */
  lemma StepEats(g: GameState, newFood: Point)
    requires g.snake != [] && !g.gameOver
    requires var head := Advance(g.snake[0], g.dir); InGrid(head) && head !in g.snake && head == g.food
    ensures var g' := Step(g, newFood);
      && g'.snake == [g.food] + g.snake
      && |g'.snake| == |g.snake| + 1
      && g'.score == g.score + 10
      && g'.food == newFood
      && !g'.gameOver && g'.dir == g.dir
  {
  }

  /**
   * Any other move shifts the snake: the new head in front, every segment
   * taking the cell of the one before it, the last cell given up; length,
   * score and food stay as they were.
   */
  lemma StepShifts(g: GameState, newFood: Point)
    requires g.snake != [] && !g.gameOver
    requires var head := Advance(g.snake[0], g.dir); InGrid(head) && head !in g.snake && head != g.food
    ensures var g' := Step(g, newFood);
      && g'.snake[0] == Advance(g.snake[0], g.dir)
      && |g'.snake| == |g.snake|
      && (forall i :: 1 <= i < |g'.snake| ==> g'.snake[i] == g.snake[i - 1])
      && g'.score == g.score && g'.food == g.food
      && !g'.gameOver && g'.dir == g.dir
  {
  }

  /** Putting an on-grid cell that is not part of the snake in front keeps the snake well formed. */
  lemma PrependKeepsWellFormed(s: seq<Point>, head: Point)
    requires WellFormed(s) && InGrid(head) && head !in s
    ensures WellFormed([head] + s)
    ensures WellFormed([head] + s[..|s| - 1])
  {
    var t := [head] + s;
    forall i, j | 0 <= i < j < |t| ensures t[i] != t[j] {
      if i == 0 {
        assert t[j] == s[j - 1];
      } else {
        assert t[i] == s[i - 1] && t[j] == s[j - 1];
      }
    }
    assert [head] + s[..|s| - 1] == t[..|s|];
  }

  /**
   * The game invariant holds at the start and after every tick: every
   * segment stays on the grid, no two segments share a cell, the food is on
   * the grid, and the score is 10 times the number of segments grown.
   */
  lemma StepKeepsInvariant(g: GameState, newFood: Point)
    requires Invariant(g) && InGrid(newFood)
    ensures Invariant(Step(g, newFood))
  {
    if !g.gameOver {
      var head := Advance(g.snake[0], g.dir);
      if InGrid(head) && head !in g.snake {
        PrependKeepsWellFormed(g.snake, head);
      }
    }
  }

  /** The start state satisfies the invariant. */
  lemma InitialSatisfiesInvariant(food: Point)
    requires InGrid(food)
    ensures Invariant(Initial(food))
  {
  }

  // ---------------------------------------------------------------------------
  // Direction changes

  /** The direction an arrow key asks for. */
  function Arrow(key: Key): Direction
    requires key != OtherKey
  {
    match key
    case VkUp => Up
    case VkDown => Down
    case VkLeft => Left
    case VkRight => Right
  }

  /**
   * An arrow key sets its own direction unless that is the opposite of the
   * current one, which it ignores; every other key changes nothing.
   */
  lemma TurnFollowsArrow(d: Direction, key: Key)
    ensures key == OtherKey ==> Turn(d, key) == d
    ensures key != OtherKey && Arrow(key) != Opposite(d) ==> Turn(d, key) == Arrow(key)
    ensures key != OtherKey && Arrow(key) == Opposite(d) ==> Turn(d, key) == d
  {
  }

  /**
   * Two key presses between ticks can reverse the direction (right, then up,
   * then left); a snake of two or more segments whose direction is the
   * opposite of its last move runs into its own neck and ends the game on
   * the next tick.
   */
  lemma ReversalIntoNeckEndsGame(g: GameState, newFood: Point, last: Direction)
    requires Invariant(g) && !g.gameOver && |g.snake| >= 2
    requires g.snake[0] == Advance(g.snake[1], last) && g.dir == Opposite(last)
    ensures Turn(Turn(Right, VkUp), VkLeft) == Opposite(Right)
    ensures Step(g, newFood).gameOver
    ensures Step(g, newFood).snake == g.snake
  {
    AdvanceMovesOneCell(g.snake[1], last);
    assert Advance(g.snake[0], g.dir) == g.snake[1];
  }

  // ---------------------------------------------------------------------------
  // Size bound: the snake never outgrows the grid, so the score fits an int

  /** A number for each cell of the grid. */
  function CellIndex(p: Point): int
  {
    p.y * Width + p.x
  }

  function CellIndices(s: seq<Point>): set<int>
  {
    if s == [] then {} else {CellIndex(s[0])} + CellIndices(s[1..])
  }

  lemma {:induction false} CellIndicesOf(s: seq<Point>)
    requires forall i :: 0 <= i < |s| ==> InGrid(s[i])
    ensures forall n :: n in CellIndices(s) <==> exists i :: 0 <= i < |s| && CellIndex(s[i]) == n
    ensures forall n :: n in CellIndices(s) ==> 0 <= n < Width * Height
  {
    if s != [] {
      CellIndicesOf(s[1..]);
      forall n ensures n in CellIndices(s) <==> exists i :: 0 <= i < |s| && CellIndex(s[i]) == n {
        if n in CellIndices(s[1..]) {
          var i :| 0 <= i < |s[1..]| && CellIndex(s[1..][i]) == n;
          assert CellIndex(s[i + 1]) == n;
        }
        if exists i :: 0 <= i < |s| && CellIndex(s[i]) == n {
          var i :| 0 <= i < |s| && CellIndex(s[i]) == n;
          if i > 0 {
            assert CellIndex(s[1..][i - 1]) == n;
          }
        }
      }
    }
  }

  lemma {:induction false} DistinctCellIndices(s: seq<Point>)
    requires WellFormed(s) || s == []
    ensures |CellIndices(s)| == |s|
  {
    if s != [] {
      var t := s[1..];
      assert WellFormed(t) || t == [] by {
        assert forall i, j :: 0 <= i < j < |t| ==> t[i] == s[i + 1] && t[j] == s[j + 1];
      }
      DistinctCellIndices(t);
      CellIndicesOf(t);
      forall i | 0 <= i < |t| ensures CellIndex(t[i]) != CellIndex(s[0]) {
        assert t[i] == s[i + 1];
      }
    }
  }

  /** The numbers `0 .. n - 1`. */
  function Range(n: nat): set<int>
  {
    if n == 0 then {} else Range(n - 1) + {n - 1}
  }

  lemma {:induction false} RangeSpec(n: nat)
    ensures |Range(n)| == n
    ensures forall k :: k in Range(n) <==> 0 <= k < n
  {
    if n > 0 {
      RangeSpec(n - 1);
    }
  }

  lemma {:induction false} SubsetSize<T>(a: set<T>, b: set<T>)
    requires a <= b
    ensures |a| <= |b|
  {
    if |a| > 0 {
      assert a != {};
      var x :| x in a;
      SubsetSize(a - {x}, b - {x});
    }
  }

  /**
   * A well-formed snake has at most `Width * Height` segments, so the score
   * of a reachable state is at most 3990 and never overflows a 32-bit int.
   */
  lemma SnakeFitsGrid(g: GameState)
    requires Invariant(g)
    ensures |g.snake| <= Width * Height
    ensures 0 <= g.score <= 10 * (Width * Height - 1)
  {
    DistinctCellIndices(g.snake);
    CellIndicesOf(g.snake);
    RangeSpec(Width * Height);
    forall n | n in CellIndices(g.snake) ensures n in Range(Width * Height) {
    }
    SubsetSize(CellIndices(g.snake), Range(Width * Height));
  }

  // ---------------------------------------------------------------------------
  // The game's globals, updated in place

  class Game {
    var snake: seq<Point>
    var food: Point
    var dir: Direction
    var gameOver: bool
    var score: int

    function State(): GameState
      reads this
    {
      GameState(snake, food, dir, gameOver, score)
    }

    ghost predicate Valid()
      reads this
    {
      Invariant(State())
    }

    /** The initial values of the globals; `food` is the first `rand()` draw. */
    constructor (food: Point)
      requires InGrid(food)
      ensures Valid()
      ensures State() == Initial(food)
    {
      snake := [Point(Width / 2, Height / 2)];
      this.food := food;
      dir := Right;
      gameOver := false;
      score := 0;
    }

    /** The loop over the segments: does `head` land on one of them? */
    method HitsSnake(head: Point) returns (hit: bool)
      ensures hit <==> head in snake
    {
      for i := 0 to |snake|
        invariant head !in snake[..i]
      {
        if snake[i] == head {
          return true;
        }
      }
      assert snake[..|snake|] == snake;
      return false;
    }

    /** `MoveSnake()`: one timer tick. */
    method MoveSnake(newFood: Point)
      requires Valid() && InGrid(newFood)
      modifies this
      ensures Valid()
      ensures State() == Step(old(State()), newFood)
    {
      StepKeepsInvariant(State(), newFood);
      if gameOver {
        return;
      }
      var head := snake[0];
      match dir {
        case Up => head := head.(y := head.y - 1);
        case Down => head := head.(y := head.y + 1);
        case Left => head := head.(x := head.x - 1);
        case Right => head := head.(x := head.x + 1);
      }

      if head.x < 0 || head.y < 0 || head.x >= Width || head.y >= Height {
        gameOver := true;
        return;
      }
      var hit := HitsSnake(head);
      if hit {
        gameOver := true;
        return;
      }

      snake := [head] + snake;
      if head == food {
        score := score + 10;
        food := newFood;
      } else {
        snake := snake[..|snake| - 1];
      }
    }

    /** The `WM_KEYDOWN` case of the window procedure. */
    method KeyDown(key: Key)
      modifies this
      ensures dir == Turn(old(dir), key)
      ensures snake == old(snake) && food == old(food) && gameOver == old(gameOver) && score == old(score)
    {
      match key {
        case VkUp => if dir != Down { dir := Up; }
        case VkDown => if dir != Up { dir := Down; }
        case VkLeft => if dir != Right { dir := Left; }
        case VkRight => if dir != Left { dir := Right; }
        case OtherKey =>
      }
    }
  }
}
