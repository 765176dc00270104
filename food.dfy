/**
 * Food placement (generateFood in public/snake/script.js): draw a random cell, and draw
 * again while it lies on the snake. Math.random is replaced by the sequence of pairs it
 * would return, one pair (x, y) per round of the retry loop.
 */
module Food {
  import opened Grid

  /** What Math.random guarantees of one pair of draws: both in [0, 1). */
  predicate ValidDraw(d: (real, real)) {
    0.0 <= d.0 < 1.0 && 0.0 <= d.1 < 1.0
  }

  predicate ValidDraws(draws: seq<(real, real)>) {
    forall i :: 0 <= i < |draws| ==> ValidDraw(draws[i])
  }

  /** `Math.floor((r * canvas.width) / box) * box`: one grid-aligned coordinate inside the canvas. */
  function DrawCoord(r: real): (c: int)
    requires 0.0 <= r < 1.0
    ensures 0 <= c < CanvasSize && c % Box == 0
  {
    var k := ((r * CanvasSize as real) / Box as real).Floor;
    assert 0 <= k < GridSize;
    k * Box
  }

  /** The cell one round of the retry loop draws. */
  function DrawCell(d: (real, real)): (c: Cell)
    requires ValidDraw(d)
    ensures Aligned(c) && InCanvas(c)
  {
    Cell(DrawCoord(d.0), DrawCoord(d.1))
  }

  /** Some round of the loop draws a cell off the snake, so the loop ends within `draws`. */
  predicate HasFreeDraw(snake: seq<Cell>, draws: seq<(real, real)>) {
    exists i :: 0 <= i < |draws| && ValidDraw(draws[i]) && DrawCell(draws[i]) !in snake
  }

  /**
   * The cell the retry loop settles on: the first drawn cell that is not on the snake.
   * It is grid-aligned, inside the canvas and off the snake.
   */
  function FirstFree(snake: seq<Cell>, draws: seq<(real, real)>): (c: Cell)
    requires ValidDraws(draws) && HasFreeDraw(snake, draws)
    ensures Aligned(c) && InCanvas(c) && c !in snake
    ensures exists i :: 0 <= i < |draws| && c == DrawCell(draws[i]) &&
                        forall j :: 0 <= j < i ==> DrawCell(draws[j]) in snake
    decreases |draws|
  {
    var c := DrawCell(draws[0]);
    if c !in snake then c
    else
      assert forall i :: 0 < i < |draws| ==> draws[1..][i - 1] == draws[i];
      var r := FirstFree(snake, draws[1..]);
      assert exists i :: 0 <= i < |draws[1..]| && r == DrawCell(draws[1..][i]) &&
                         forall j :: 0 <= j < i ==> DrawCell(draws[1..][j]) in snake;
      r
  }

  /** generateFood: the do-while loop over the draws; it returns the first free cell drawn. */
  method GenerateFood(snake: seq<Cell>, draws: seq<(real, real)>) returns (food: Cell)
    requires ValidDraws(draws) && HasFreeDraw(snake, draws)
    ensures food == FirstFree(snake, draws)
    ensures Aligned(food) && InCanvas(food) && food !in snake
  {
    var i := 0;
    var foodX := DrawCoord(draws[i].0);
    var foodY := DrawCoord(draws[i].1);
    while Cell(foodX, foodY) in snake
      invariant 0 <= i < |draws|
      invariant Cell(foodX, foodY) == DrawCell(draws[i])
      invariant HasFreeDraw(snake, draws[i..])
      invariant FirstFree(snake, draws[i..]) == FirstFree(snake, draws)
      decreases |draws| - i
    {
      assert draws[i..][1..] == draws[i + 1..];
      i := i + 1;
      foodX := DrawCoord(draws[i].0);
      foodY := DrawCoord(draws[i].1);
    }
    food := Cell(foodX, foodY);
  }
}
