/**
  The snake's rules: a grid of 10-unit cells in a 720 x 480 window, the
  four directions, the reversal guard, one step of movement, the
  insert-front / pop-back growth of the body, the food draw and the
  game-over test. The class `Game` holds the state that the game loop
  updates on every tick.
 */
module Snake {
  import opened Wrappers

  /** Cell size: every move is one cell. */
  const Pix: int := 10
  /** Window size in units. */
  const FrameX: int := 720
  const FrameY: int := 480

  datatype Direction = Up | Down | Left | Right

  /** A position in window units; x grows to the right, y grows downwards. */
  datatype Pos = Pos(x: int, y: int)

  /** What one tick of the game loop reports. `ateFood` records that the
      story dialogue was shown during the tick that ended the game. */
  datatype TickResult = Continue | FoodEaten | GameOver(ateFood: bool)

  function Opposite(d: Direction): Direction
  {
    match d
    case Up => Down
    case Down => Up
    case Left => Right
    case Right => Left
  }

  /** `a` and `b` are one cell apart along exactly one axis. */
  predicate Adjacent(a: Pos, b: Pos)
  {
    (a.x == b.x && (b.y - a.y == Pix || a.y - b.y == Pix)) ||
    (a.y == b.y && (b.x - a.x == Pix || a.x - b.x == Pix))
  }

  predicate OnGrid(p: Pos)
  {
    p.x % Pix == 0 && p.y % Pix == 0
  }

  /** Every two consecutive segments of a head-first body touch. */
  predicate Contiguous(s: seq<Pos>)
  {
    forall i :: 1 <= i < |s| ==> Adjacent(s[i], s[i - 1])
  }

  /** The cells food can be drawn on: grid-aligned, never in row or column 0. */
  predicate FoodSpot(p: Pos)
  {
    OnGrid(p) && Pix <= p.x <= FrameX - Pix && Pix <= p.y <= FrameY - Pix
  }

  /** The values `randrange(1, frame // PIX)` can return on each axis. */
  predicate FoodDraw(rx: int, ry: int)
  {
    1 <= rx < FrameX / Pix && 1 <= ry < FrameY / Pix
  }

  /** The food position made from two random draws. */
  function FoodCell(rx: int, ry: int): (r: Pos)
    requires FoodDraw(rx, ry)
    ensures FoodSpot(r)
  {
    Pos(rx * Pix, ry * Pix)
  }

  /** Every food spot can be drawn: the food is spread over the whole grid
      except row 0 and column 0. */
  lemma FoodCellOnto(p: Pos)
    requires FoodSpot(p)
    ensures exists rx, ry :: FoodDraw(rx, ry) && FoodCell(rx, ry) == p
  {
    var rx, ry := p.x / Pix, p.y / Pix;
    assert FoodDraw(rx, ry) && FoodCell(rx, ry) == p;
  }

  /** The reversal guard: a request for the exact opposite of the current
      direction is ignored; any other request takes effect. */
  function ResolveDirection(current: Direction, requested: Direction): (r: Direction)
    ensures r == (if requested == Opposite(current) then current else requested)
    ensures r != Opposite(current)
  {
    var d0 := current;
    var d1 := if requested == Up && d0 != Down then Up else d0;
    var d2 := if requested == Down && d1 != Up then Down else d1;
    var d3 := if requested == Left && d2 != Right then Left else d2;
    if requested == Right && d3 != Left then Right else d3
  }

  /** One cell of movement from `p` in direction `d`. */
  function Move(p: Pos, d: Direction): (r: Pos)
    ensures Adjacent(p, r)
    ensures r.y < p.y <==> d == Up
    ensures r.y > p.y <==> d == Down
    ensures r.x < p.x <==> d == Left
    ensures r.x > p.x <==> d == Right
  {
    match d
    case Up => Pos(p.x, p.y - Pix)
    case Down => Pos(p.x, p.y + Pix)
    case Left => Pos(p.x - Pix, p.y)
    case Right => Pos(p.x + Pix, p.y)
  }

  /** Two moves lead back to the start exactly when the second one reverses
      the first. */
  lemma MoveReturns(p: Pos, d: Direction, e: Direction)
    ensures Move(Move(p, d), e) == p <==> e == Opposite(d)
  {
  }

  lemma MoveKeepsGrid(p: Pos, d: Direction)
    requires OnGrid(p)
    ensures OnGrid(Move(p, d))
  {
  }

  /** The body after the head has moved to `head`: the head is inserted in
      front and, unless food was eaten, the tail is popped. */
  function AdvanceBody(body: seq<Pos>, head: Pos, ate: bool): (r: seq<Pos>)
    requires |body| > 0
    ensures |r| == |body| + (if ate then 1 else 0)
    ensures r[0] == head
    ensures forall i :: 1 <= i < |r| ==> r[i] == body[i - 1]
  {
    var grown := [head] + body;
    if ate then grown else grown[..|grown| - 1]
  }

  /** Growing or sliding keeps the body in one piece when the new head
      touches the old one. */
  lemma AdvanceBodyContiguous(body: seq<Pos>, head: Pos, ate: bool)
    requires |body| > 0 && Contiguous(body) && Adjacent(body[0], head)
    ensures Contiguous(AdvanceBody(body, head, ate))
  {
  }

  /** The window test as the game loop writes it: a head is outside when a
      coordinate is negative or beyond the last cell. */
  predicate OutOfWindow(p: Pos)
  {
    p.x < 0 || p.x > FrameX - Pix || p.y < 0 || p.y > FrameY - Pix
  }

  /** On grid-aligned positions, "beyond the last cell" and "at or beyond
      the window edge" agree. */
  lemma OutOfWindowOnGrid(p: Pos)
    requires OnGrid(p)
    ensures OutOfWindow(p) <==> !(0 <= p.x < FrameX && 0 <= p.y < FrameY)
  {
  }

  /** The head lies on some segment after the first. */
  predicate SelfCollision(head: Pos, body: seq<Pos>)
  {
    exists i :: 1 <= i < |body| && body[i] == head
  }

  predicate GameOverAt(head: Pos, body: seq<Pos>)
  {
    OutOfWindow(head) || SelfCollision(head, body)
  }

  /** The game-over checks of the loop: the two window tests, then a scan of
      `body[1:]` for the head. */
  method CheckGameOver(head: Pos, body: seq<Pos>) returns (over: bool)
    ensures over <==> GameOverAt(head, body)
  {
    over := false;
    if head.x < 0 || head.x > FrameX - Pix {
      over := true;
    }
    if head.y < 0 || head.y > FrameY - Pix {
      over := true;
    }
    var i := 1;
    while i < |body|
      invariant 1 <= i <= |body| + 1
      invariant over <==> OutOfWindow(head) || exists j :: 1 <= j < i && j < |body| && body[j] == head
    {
      if body[i] == head {
        over := true;
      }
      i := i + 1;
    }
  }

  /** The state of one game: head, head-first body, effective and requested
      direction, score and food. */
  class Game {
    var head: Pos
    var body: seq<Pos>
    var direction: Direction
    /** The last direction key pressed; it persists between ticks. */
    var changeTo: Direction
    var score: nat
    var food: Pos

    /** The body grows by one segment per point, starts at the head, stays
        in one piece on the grid, its neck lies one step behind the head,
        a pending request can only be the current direction or its reverse,
        and the food is on a food spot. */
    ghost predicate Valid()
      reads this
    {
      |body| == 3 + score &&
      body[0] == head &&
      head == Move(body[1], direction) &&
      Contiguous(body) &&
      (forall i :: 0 <= i < |body| ==> OnGrid(body[i])) &&
      (changeTo == direction || changeTo == Opposite(direction)) &&
      FoodSpot(food)
    }

    /** The starting state: three segments at y = 50 heading right, score 0,
        food from the first two draws. */
    constructor (rx: int, ry: int)
      requires FoodDraw(rx, ry)
      ensures Valid()
      ensures head == Pos(100, 50)
      ensures body == [Pos(100, 50), Pos(100 - Pix, 50), Pos(100 - 2 * Pix, 50)]
      ensures direction == Right && changeTo == Right
      ensures score == 0 && food == FoodCell(rx, ry)
    {
      head := Pos(100, 50);
      body := [Pos(100, 50), Pos(100 - Pix, 50), Pos(100 - 2 * Pix, 50)];
      food := FoodCell(rx, ry);
      direction := Right;
      changeTo := Right;
      score := 0;
    }

    /** One iteration of the game loop. `key` is the last direction key
        pressed during the frame, if any; `rx`, `ry` are the random draws
        used if the food is eaten. */
    method Tick(key: Option<Direction>, rx: int, ry: int) returns (r: TickResult)
      requires Valid()
      requires FoodDraw(rx, ry)
      modifies this
      ensures Valid()
      ensures changeTo == (if key.Some? then key.value else old(changeTo))
      ensures direction == ResolveDirection(old(direction), changeTo)
      ensures head == Move(old(head), direction)
      ensures head != old(body)[1]
      ensures var ate := head == old(food);
        body == AdvanceBody(old(body), head, ate) &&
        score == old(score) + (if ate then 1 else 0) &&
        food == (if ate then FoodCell(rx, ry) else old(food))
      ensures r == if GameOverAt(head, body) then GameOver(head == old(food))
                   else if head == old(food) then FoodEaten
                   else Continue
    {
      ghost var oldBody, oldDirection := body, direction;
      if key.Some? {
        changeTo := key.value;
      }
      direction := ResolveDirection(direction, changeTo);

      head := Move(head, direction);
      MoveKeepsGrid(oldBody[0], direction);
      MoveReturns(oldBody[1], oldDirection, direction);

      body := [head] + body;
      var ate := head == food;
      if ate {
        score := score + 1;
      } else {
        body := body[..|body| - 1];
      }
      if ate {
        food := FoodCell(rx, ry);
      }
      assert body == AdvanceBody(oldBody, head, ate);
      AdvanceBodyContiguous(oldBody, head, ate);

      var over := CheckGameOver(head, body);
      r := if over then GameOver(ate) else if ate then FoodEaten else Continue;
    }
  }

  /** The opening position with food one cell ahead of the head: the first
      tick eats it and the snake grows to four segments. */
  method EatAheadScenario()
  {
    var g := new Game(11, 5);
    assert g.food == Pos(110, 50);
    var r := g.Tick(None, 1, 1);
    assert !OutOfWindow(g.head);
    assert r == FoodEaten;
    assert g.score == 1;
    assert g.body == [Pos(110, 50), Pos(100, 50), Pos(90, 50), Pos(80, 50)];
    assert g.food == Pos(10, 10);
  }
}
