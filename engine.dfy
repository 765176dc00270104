/**
 * The movement and growth step of moveSnake in public/snake/script.js, on values: the
 * new head one box away in the adopted direction, prepended to the body, and the tail
 * dropped unless the head landed on the food.
 */
module Engine {
  import opened Grid
  import opened Directions
  import opened Collision

  /** The head offset by one box: UP is y - box, DOWN y + box, LEFT x - box, RIGHT x + box. */
  function NewHead(head: Cell, d: Dir): (r: Cell)
    ensures Aligned(head) ==> Aligned(r)
    ensures (r.x == head.x && (r.y == head.y - Box || r.y == head.y + Box)) ||
            (r.y == head.y && (r.x == head.x - Box || r.x == head.x + Box))
    ensures d == Up || d == Down <==> r.x == head.x
  {
    match d
    case Up => Cell(head.x, head.y - Box)
    case Down => Cell(head.x, head.y + Box)
    case Left => Cell(head.x - Box, head.y)
    case Right => Cell(head.x + Box, head.y)
  }

  /** Moving back in the opposite direction returns to the cell just left: the neck. */
  lemma NewHeadReverse(head: Cell, d: Dir)
    ensures NewHead(NewHead(head, d), Opposite(d)) == head
  {
  }

  /**
   * The body after one tick in direction `d` (`unshift` of the new head, then `pop`
   * unless it is on the food): every old segment moves one place back, and the snake
   * grows by one exactly when the new head is the food.
   */
  function Advance(snake: seq<Cell>, d: Dir, food: Cell): (r: seq<Cell>)
    requires snake != []
    ensures r != [] && r[0] == NewHead(snake[0], d)
    ensures |r| == if r[0] == food then |snake| + 1 else |snake|
    ensures forall i :: 0 < i < |r| ==> r[i] == snake[i - 1]
  {
    var head := NewHead(snake[0], d);
    if head == food then [head] + snake
    else [head] + snake[..|snake| - 1]
  }

  /** A grid-aligned body stays grid-aligned. */
  lemma AdvanceKeepsAligned(snake: seq<Cell>, d: Dir, food: Cell)
    requires snake != [] && AllAligned(snake)
    ensures AllAligned(Advance(snake, d, food))
  {
  }

  /**
   * Food that is off the snake stays off it when the head misses it: the new body is the
   * new head followed by old segments.
   */
  lemma AdvanceKeepsFoodFree(snake: seq<Cell>, d: Dir, food: Cell)
    requires snake != [] && food !in snake
    requires NewHead(snake[0], d) != food
    ensures food !in Advance(snake, d, food)
  {
  }

  /**
   * Turning straight back runs into the neck once the snake has three segments: the new
   * head is the old second segment, which is still in the body after the tail is dropped.
   */
  lemma ReversalHitsNeck(snake: seq<Cell>, d: Dir, food: Cell)
    requires |snake| >= 3 && snake[0] == NewHead(snake[1], d)
    ensures Collides(Advance(snake, Opposite(d), food))
  {
  }

  /**
   * A two-segment snake that turns straight back without eating does not collide: the
   * tail is dropped before the check, so head and tail just swap cells.
   */
  lemma TwoSegmentReversalSwaps(snake: seq<Cell>, d: Dir, food: Cell)
    requires |snake| == 2 && snake[0] == NewHead(snake[1], d)
    requires NewHead(snake[0], Opposite(d)) != food
    ensures Advance(snake, Opposite(d), food) == [snake[1], snake[0]]
  {
  }

  /**
   * The queued-input reversal of Directions.QueuedInputsCanReverse on a three-segment
   * snake moving right: the tick takes the head back onto its neck and ends the game.
   */
  lemma QueuedInputsReverseIntoNeck(food: Cell)
    ensures var h := Heading(Right, Right, []);
            var h3 := Apply(Apply(Apply(h, Key("ArrowLeft")), Key("ArrowUp")), Key("ArrowLeft"));
            var snake := [Cell(140, 100), Cell(120, 100), Cell(100, 100)];
            Collides(Advance(snake, Apply(h3, Tick).moved, food))
  {
    QueuedInputsCanReverse();
    ReversalHitsNeck([Cell(140, 100), Cell(120, 100), Cell(100, 100)], Right, food);
  }

  /**
   * The eating scenario: a single segment at (100,100) moving right onto food at
   * (120,100) becomes the two segments (120,100), (100,100).
   */
  lemma EatScenario()
    ensures Advance([Start], Right, Cell(120, 100)) == [Cell(120, 100), Start]
  {
  }
}
