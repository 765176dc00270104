/** The condition tested by checkCollision in public/snake/script.js. */
module Collision {
  import opened Grid

  /**
   * The game is over when the head has left the canvas, or when it sits on a cell
   * already taken by another segment (`snake.slice(1).some(...)`).
   */
  function Collides(snake: seq<Cell>): (r: bool)
    requires snake != []
    ensures r <==> snake[0].x < 0 || snake[0].x >= CanvasSize ||
                   snake[0].y < 0 || snake[0].y >= CanvasSize ||
                   exists i :: 1 <= i < |snake| && snake[i] == snake[0]
  {
    var head := snake[0];
    !InCanvas(head) || head in snake[1..]
  }

  /** One step past the rightmost column (x = width) is a collision, whatever the body. */
  lemma RightWallCollides(snake: seq<Cell>)
    requires snake != [] && snake[0].x == CanvasSize
    ensures Collides(snake)
  {
  }

  /** A single-segment snake collides only with the walls. */
  lemma SingleSegmentOnlyHitsWalls(head: Cell)
    ensures Collides([head]) <==> !InCanvas(head)
  {
  }
}
