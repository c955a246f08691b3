/** A game session between two starts: the game state together with the
    reference point of the touch handler, driven by timer ticks, key presses
    and touch events in any interleaving. */
module Session {
  import opened Grid
  import opened Controls
  import opened Food
  import opened Game

  datatype Session = Session(game: GameState, touchStart: Point)

  datatype Event =
    | Timer
    | KeyPress(key: Key)
    | TouchBegin(at: Point)
    | TouchDrag(to: Point)

  /** `y` is a possible session after event `e` happens in session `x`. */
  ghost predicate Follows(b: Board, x: Session, e: Event, y: Session)
    requires ValidBoard(b) && |x.game.snake| > 0
  {
    match e
    case Timer => Ticked(b, x.game, y.game) && y.touchStart == x.touchStart
    case KeyPress(k) => y == x.(game := OnKeyDown(x.game, k))
    case TouchBegin(p) => y == x.(touchStart := p)
    case TouchDrag(p) =>
      var r := TouchMove(x.game.dir, x.touchStart, p);
      y == Session(x.game.(dir := r.dir), r.start)
  }

  /** Dispatches one event to its handler. */
  method Handle(b: Board, x: Session, e: Event) returns (y: Session)
    requires ValidBoard(b) && |x.game.snake| > 0
    requires e == Timer && Eats(b, x.game) ==> HasFreeCell(b, [NextHead(b, x.game)] + x.game.snake)
    ensures Follows(b, x, e, y)
    ensures y.game == x.game.(dir := y.game.dir) || e == Timer
    ensures e != Timer ==> y.game.dir != Opposite(x.game.dir)
  {
    match e
    case Timer =>
      var g := Tick(b, x.game);
      y := x.(game := g);
    case KeyPress(k) =>
      y := x.(game := OnKeyDown(x.game, k));
    case TouchBegin(p) =>
      y := x.(touchStart := p);
    case TouchDrag(p) =>
      var r := TouchMove(x.game.dir, x.touchStart, p);
      y := Session(x.game.(dir := r.dir), r.start);
  }

  /** `xs` is the sequence of sessions that events `es` lead through. */
  ghost predicate IsRun(b: Board, xs: seq<Session>, es: seq<Event>) {
    && ValidBoard(b)
    && |xs| == |es| + 1
    && (forall i :: 0 <= i < |xs| ==> |xs[i].game.snake| > 0)
    && (forall i :: 0 <= i < |es| ==> Follows(b, xs[i], es[i], xs[i + 1]))
  }

  /** Over any run the invariant holds throughout, score and best score never
      go down, and a game that was stopped stays stopped with only its
      direction changed by the input handlers. */
  lemma {:induction false} RunKeepsValid(b: Board, xs: seq<Session>, es: seq<Event>)
    requires IsRun(b, xs, es)
    requires Valid(b, xs[0].game)
    ensures Valid(b, xs[|es|].game)
    ensures xs[|es|].game.score >= xs[0].game.score
    ensures xs[|es|].game.highScore >= xs[0].game.highScore
    ensures xs[|es|].game.running ==> xs[0].game.running
    ensures !xs[0].game.running ==> xs[|es|].game == xs[0].game.(dir := xs[|es|].game.dir)
    decreases |es|
  {
    if |es| > 0 {
      var x, y := xs[0], xs[1];
      assert Follows(b, x, es[0], y);
      match es[0] {
        case Timer =>
          TickPreservesValid(b, x.game, y.game);
          TickIsMonotone(b, x.game, y.game);
        case KeyPress(k) =>
          TurnPreservesValid(b, x.game, y.game.dir);
        case TouchBegin(p) =>
        case TouchDrag(p) =>
          TurnPreservesValid(b, x.game, y.game.dir);
      }
      var xs', es' := xs[1..], es[1..];
      assert IsRun(b, xs', es') by {
        forall i | 0 <= i < |es'|
          ensures Follows(b, xs'[i], es'[i], xs'[i + 1])
        {
          assert Follows(b, xs[i + 1], es[i + 1], xs[i + 2]);
        }
      }
      RunKeepsValid(b, xs', es');
      assert xs'[|es'|] == xs[|es|];
    }
  }
}
