/** The input handlers: arrow keys and finger movements write the snake's
    direction directly. There is no queued intent: each handler compares
    against the direction as it stands at that moment and refuses only the
    exact reverse of it. */
module Controls {

  datatype Direction = Up | Down | Left | Right

  function Opposite(d: Direction): (r: Direction)
    ensures r != d
  {
    match d
    case Up => Down
    case Down => Up
    case Left => Right
    case Right => Left
  }

  /** Unit vector of a direction on the canvas, whose y axis points down. */
  function DeltaX(d: Direction): int {
    match d
    case Left => -1
    case Right => 1
    case _ => 0
  }

  function DeltaY(d: Direction): int {
    match d
    case Up => -1
    case Down => 1
    case _ => 0
  }

  /** A keyboard key as the game tells them apart: the four arrows, and
      everything else. */
  datatype Key = ArrowUp | ArrowDown | ArrowLeft | ArrowRight | OtherKey

  /** The direction an arrow key asks for. */
  function Heading(k: Key): Direction
    requires k != OtherKey
  {
    match k
    case ArrowUp => Up
    case ArrowDown => Down
    case ArrowLeft => Left
    case ArrowRight => Right
  }

  /** The keydown handler: the direction after key `k` is pressed while the
      snake heads `d`. An arrow is obeyed unless it asks for the reverse of
      `d`; any other key, and a refused arrow, leave `d` as it is. */
  function KeyDown(d: Direction, k: Key): (r: Direction)
    ensures r != Opposite(d)
    ensures r == d || (k != OtherKey && r == Heading(k))
    ensures k != OtherKey && Heading(k) != Opposite(d) ==> r == Heading(k)
  {
    if k == ArrowUp && d != Down then Up
    else if k == ArrowDown && d != Up then Down
    else if k == ArrowLeft && d != Right then Left
    else if k == ArrowRight && d != Left then Right
    else d
  }

  /** A touch position in client coordinates. */
  datatype Point = Point(x: real, y: real)

  function Abs(v: real): real {
    if v < 0.0 then -v else v
  }

  /** The arrow a finger movement from `a` to `p` stands for: the axis with the
      larger displacement wins, a tie goes to the vertical axis, and no
      displacement along the winning axis stands for no arrow at all. */
  function SwipeKey(a: Point, p: Point): Key {
    var dx := p.x - a.x;
    var dy := p.y - a.y;
    if Abs(dx) > Abs(dy) then
      (if dx > 0.0 then ArrowRight else if dx < 0.0 then ArrowLeft else OtherKey)
    else
      (if dy > 0.0 then ArrowDown else if dy < 0.0 then ArrowUp else OtherKey)
  }

  /** Outcome of a touchmove event: the new direction and the new reference
      point for the next movement. */
  datatype TouchResult = TouchResult(dir: Direction, start: Point)

  /** The touchmove handler: the finger moved from the reference point
      `start` to `p` while the snake heads `d`. */
  function TouchMove(d: Direction, start: Point, p: Point): (r: TouchResult)
    ensures r.start == p
    ensures r.dir != Opposite(d)
    ensures r.dir == KeyDown(d, SwipeKey(start, p))
    ensures Abs(p.x - start.x) > Abs(p.y - start.y) ==> r.dir in {d, Left, Right}
    ensures Abs(p.x - start.x) <= Abs(p.y - start.y) ==> r.dir in {d, Up, Down}
    ensures p.x == start.x && p.y == start.y ==> r.dir == d
  {
    var deltaX := p.x - start.x;
    var deltaY := p.y - start.y;
    var dir :=
      if Abs(deltaX) > Abs(deltaY) then
        (if deltaX > 0.0 && d != Left then Right
         else if deltaX < 0.0 && d != Right then Left
         else d)
      else
        (if deltaY > 0.0 && d != Up then Down
         else if deltaY < 0.0 && d != Down then Up
         else d);
    TouchResult(dir, p)
  }

  /** Two inputs between ticks are each checked against the direction the
      previous one wrote, so together they can turn the snake around: a
      quarter turn followed by the arrow opposite to the original heading. */
  lemma TwoInputsCanReverse(d: Direction)
    ensures KeyDown(KeyDown(d, QuarterTurn(d)), ArrowFor(Opposite(d))) == Opposite(d)
  {
  }

  /** An arrow key at right angles to `d`. */
  function QuarterTurn(d: Direction): (k: Key)
    ensures k != OtherKey && Heading(k) != d && Heading(k) != Opposite(d)
  {
    match d
    case Up => ArrowRight
    case Down => ArrowLeft
    case Left => ArrowUp
    case Right => ArrowDown
  }

  /** The arrow key that asks for `d`. */
  function ArrowFor(d: Direction): (k: Key)
    ensures k != OtherKey && Heading(k) == d
  {
    match d
    case Up => ArrowUp
    case Down => ArrowDown
    case Left => ArrowLeft
    case Right => ArrowRight
  }
}
