/** Worked examples of single ticks on a 400 by 400 canvas. */
module Scenarios {
  import opened Grid
  import opened Controls
  import opened Game

  const Canvas: Board := Board(400, 400)

  function Playing(snake: seq<Cell>, dir: Direction, food: Cell, score: nat, highScore: nat): GameState {
    GameState(snake, dir, food, score, highScore, true)
  }

  /** A fresh snake moves one cell right and keeps its length. */
  lemma FirstStepRight()
    ensures Advance(Canvas, Playing([Origin], Right, Cell(0, 0), 0, 0)).snake == [Cell(220, 200)]
    ensures Advance(Canvas, Playing([Origin], Right, Cell(0, 0), 0, 0)).running
  {
  }

  /** Leaving the right edge re-enters at column 0 without a collision. */
  lemma WrapAtRightEdge()
    ensures NextHead(Canvas, Playing([Cell(380, 200), Cell(360, 200)], Right, Cell(0, 0), 10, 0)) == Cell(0, 200)
    ensures Advance(Canvas, Playing([Cell(380, 200), Cell(360, 200)], Right, Cell(0, 0), 10, 0)).snake
      == [Cell(0, 200), Cell(380, 200)]
  {
  }

  /** Leaving the top edge re-enters at the last row. */
  lemma WrapAtTopEdge()
    ensures NextHead(Canvas, Playing([Cell(40, 0)], Up, Cell(0, 0), 0, 0)) == Cell(40, 380)
  {
  }

  /** Reaching the food scores 10 and keeps the old tail. */
  lemma EatingGrows()
    ensures Eats(Canvas, Playing([Origin], Right, Cell(220, 200), 0, 0))
    ensures Advance(Canvas, Playing([Origin], Right, Cell(220, 200), 0, 0)).snake == [Cell(220, 200), Origin]
    ensures Advance(Canvas, Playing([Origin], Right, Cell(220, 200), 0, 0)).score == 10
  {
  }

  /** Turning into the second segment ends the game; the best score only
      changes when it is beaten. */
  lemma RunIntoSecondSegment()
    ensures Advance(Canvas, Playing([Cell(220, 200), Origin], Left, Cell(0, 0), 30, 20))
      == GameState([Cell(220, 200), Origin], Left, Cell(0, 0), 30, 30, false)
    ensures Advance(Canvas, Playing([Cell(220, 200), Origin], Left, Cell(0, 0), 30, 50)).highScore == 50
  {
  }

  /** The tail about to be vacated still counts: a snake whose head moves
      onto its own tail cell dies. */
  lemma TailCountsAsOccupied()
    ensures !Advance(Canvas, Playing([Cell(0, 0), Cell(0, 20), Cell(20, 20), Cell(20, 0)], Right, Cell(100, 100), 30, 0)).running
  {
  }

  /** A single reversing key is refused, but two quick keys between ticks
      turn the snake around into its own neck. */
  lemma QuickReversalIsFatal()
    ensures OnKeyDown(Playing([Cell(220, 200), Origin], Right, Cell(0, 0), 10, 0), ArrowLeft).dir == Right
    ensures !Advance(Canvas,
      OnKeyDown(OnKeyDown(Playing([Cell(220, 200), Origin], Right, Cell(0, 0), 10, 0), ArrowUp), ArrowLeft)).running
  {
  }
}
