/**
 * Headings, the arrow-key table and the two reversal guards of
 * public/snake/script.js: the one in changeDirection (input time) and the one in
 * moveSnake (when a queued move is consumed).
 */
module Directions {
  import opened Wrappers

  /** The strings 'UP', 'DOWN', 'LEFT', 'RIGHT' that `direction` holds. */
  datatype Dir = Up | Down | Left | Right

  /** The `oppositeDirections` table. */
  function Opposite(d: Dir): (r: Dir)
    ensures r != d
  {
    match d
    case Up => Down
    case Down => Up
    case Left => Right
    case Right => Left
  }

  /** The table is an involution: the opposite of the opposite is the heading itself. */
  lemma OppositeInvolutive(d: Dir)
    ensures Opposite(Opposite(d)) == d
  {
  }

  /** The `event.key` that names a direction (the keyboard key, or what a direction button sends). */
  function KeyName(d: Dir): string {
    match d
    case Up => "ArrowUp"
    case Down => "ArrowDown"
    case Left => "ArrowLeft"
    case Right => "ArrowRight"
  }

  /** The key-to-direction table of changeDirection; any other key gives `undefined`. */
  function KeyDirection(key: string): (r: Option<Dir>)
    ensures r.Some? ==> key == KeyName(r.value)
  {
    if key == "ArrowUp" then Some(Up)
    else if key == "ArrowDown" then Some(Down)
    else if key == "ArrowLeft" then Some(Left)
    else if key == "ArrowRight" then Some(Right)
    else None
  }

  /** The key table and KeyName are inverse: exactly the four arrow keys are recognised. */
  lemma KeyRoundTrip(d: Dir, key: string)
    ensures KeyDirection(KeyName(d)) == Some(d)
    ensures KeyDirection(key) == Some(d) <==> key == KeyName(d)
  {
  }

  /**
   * The value of `direction` after changeDirection handles `key`: the key's direction
   * when it is recognised and is not the reverse of `current`; `current` otherwise.
   */
  function TurnOnInput(current: Dir, key: string): (r: Dir)
    ensures r != Opposite(current)
    ensures r == current || KeyDirection(key) == Some(r)
  {
    match KeyDirection(key)
    case Some(d) => if d != Opposite(current) then d else current
    case None => current
  }

  /** An arrow key becomes the new direction if and only if it does not reverse the current one. */
  lemma TurnOnInputAdopts(current: Dir, d: Dir)
    ensures TurnOnInput(current, KeyName(d)) == d <==> d != Opposite(current)
  {
  }

  /** A key that is not an arrow key leaves the direction alone. */
  lemma TurnOnInputIgnores(current: Dir, key: string)
    requires KeyDirection(key) == None
    ensures TurnOnInput(current, key) == current
  {
  }

  /**
   * The value of `direction` after the guard at the top of moveSnake: the first queued
   * move is adopted unless it reverses `current`; with an empty queue nothing changes.
   */
  function NextDirection(current: Dir, queue: seq<Dir>): (r: Dir)
    ensures r != Opposite(current)
    ensures r == current || (queue != [] && r == queue[0])
    ensures queue == [] ==> r == current
    ensures queue != [] ==> (r == queue[0] <==> queue[0] != Opposite(current))
  {
    if queue != [] && queue[0] != Opposite(current) then queue[0] else current
  }

  /** `moveQueue` after moveSnake's `shift()`: the first entry removed, if there is one. */
  function Dequeued(queue: seq<Dir>): (r: seq<Dir>)
    ensures queue != [] ==> queue == [queue[0]] + r
    ensures queue == [] ==> r == []
  {
    if queue == [] then [] else queue[1..]
  }

  /** What reaches the engine: a key event (keyboard or direction button) or a timer tick. */
  datatype Event = Key(key: string) | Tick

  /** The heading state between events: the last move made, `direction` and `moveQueue`. */
  datatype Heading = Heading(moved: Dir, direction: Dir, queue: seq<Dir>)

  /** One event: changeDirection on a key, the guard at the top of moveSnake on a tick. */
  function Apply(h: Heading, e: Event): (r: Heading)
    ensures e.Key? ==> r.moved == h.moved && r.queue == h.queue + [r.direction]
    ensures e == Tick ==> r.moved == r.direction && r.queue == Dequeued(h.queue)
    ensures r.direction != Opposite(h.direction)
  {
    match e
    case Key(key) =>
      var d := TurnOnInput(h.direction, key);
      Heading(h.moved, d, h.queue + [d])
    case Tick =>
      var d := NextDirection(h.direction, h.queue);
      Heading(d, d, Dequeued(h.queue))
  }

  /** Some tick of the run moves straight against the move before it. */
  predicate ReversesSomewhere(h: Heading, events: seq<Event>)
    decreases |events|
  {
    events != [] &&
    ((events[0] == Tick && NextDirection(h.direction, h.queue) == Opposite(h.moved)) ||
     ReversesSomewhere(Apply(h, events[0]), events[1..]))
  }

  /** No two key events follow each other without a tick in between. */
  predicate OneKeyPerTick(events: seq<Event>) {
    forall i :: 0 <= i < |events| - 1 ==> events[i] == Tick || events[i + 1] == Tick
  }

  /** Nothing is pending: the queue is empty and `direction` is the last move. */
  predicate Settled(h: Heading) {
    h.queue == [] && h.direction == h.moved
  }

  /**
   * When at most one input arrives between two ticks, no tick ever moves against the
   * previous move: after a tick nothing is pending, one input cannot reverse the last
   * move, and the queue then holds exactly that input's result.
   */
  lemma {:induction false} OneKeyPerTickNeverReverses(h: Heading, events: seq<Event>)
    requires OneKeyPerTick(events)
    requires Settled(h) ||
             (h.queue == [h.direction] && h.direction != Opposite(h.moved) &&
              (events == [] || events[0] == Tick))
    ensures !ReversesSomewhere(h, events)
    decreases |events|
  {
    if events != [] {
      var rest := events[1..];
      assert OneKeyPerTick(rest) by {
        forall i | 0 <= i < |rest| - 1
          ensures rest[i] == Tick || rest[i + 1] == Tick
        {
          assert rest[i] == events[i + 1] && rest[i + 1] == events[i + 2];
        }
      }
      assert |events| > 1 && events[0] != Tick ==> events[1] == Tick;
      OneKeyPerTickNeverReverses(Apply(h, events[0]), rest);
    }
  }

  /**
   * The guard in moveSnake compares the queued move with `direction`, which the input
   * handler has already overwritten. Moving Right, the keys Left (refused, but it queues
   * Right), Up and Left within one tick leave `direction` at Left and the queue at
   * [Right, Up, Left]; the tick refuses Right as a reversal of Left and moves Left,
   * against the previous move.
   */
  lemma QueuedInputsCanReverse()
    ensures var h := Heading(Right, Right, []);
            var h3 := Apply(Apply(Apply(h, Key("ArrowLeft")), Key("ArrowUp")), Key("ArrowLeft"));
            h3 == Heading(Right, Left, [Right, Up, Left]) &&
            Apply(h3, Tick).moved == Opposite(Right) &&
            ReversesSomewhere(h, [Key("ArrowLeft"), Key("ArrowUp"), Key("ArrowLeft"), Tick])
  {
    var h := Heading(Right, Right, []);
    var events := [Key("ArrowLeft"), Key("ArrowUp"), Key("ArrowLeft"), Tick];
    var h1 := Apply(h, events[0]);
    var h2 := Apply(h1, events[1]);
    var h3 := Apply(h2, events[2]);
    assert ReversesSomewhere(h3, events[3..]);
    assert events[3..] == events[1..][1..][1..];
  }
}
