/**
 * The game state of public/snake/script.js: the module-level variables `snake`,
 * `direction`, `score`, `speed`, `moveQueue`, `food` and `gameLoop`, and the handlers
 * that update them in place.
 */
module SnakeGame {
  import opened Wrappers
  import opened Grid
  import opened Directions
  import opened Speed
  import opened Food
  import opened Collision
  import opened Engine

  class Game {
    var snake: seq<Cell>
    var direction: Dir
    var score: int
    var speed: int
    var moveQueue: seq<Dir>
    var food: Cell
    /** The live repeating timer (`gameLoop`), by its interval; None when none is running. */
    var gameLoop: Option<int>

    /**
     * What holds between handlers: a non-empty, grid-aligned snake; an interval on the
     * speed ladder; a score that is a non-negative multiple of the reward; food on a
     * free cell of the canvas; and a live timer that runs at the current speed.
     */
    ghost predicate Valid()
      reads this
    {
      && snake != []
      && AllAligned(snake)
      && SpeedInRange(speed)
      && score >= 0 && score % Reward == 0
      && Aligned(food) && InCanvas(food) && food !in snake
      && (gameLoop.Some? ==> gameLoop.value == speed)
    }

    /** Module load: the initial variables, with `food = generateFood()`; no timer yet. */
    constructor (draws: seq<(real, real)>)
      requires ValidDraws(draws) && HasFreeDraw([Start], draws)
      ensures Valid()
      ensures snake == [Start] && direction == Right && score == 0 && speed == MaxSpeed
      ensures moveQueue == [] && food == FirstFree([Start], draws) && gameLoop == None
    {
      score := 0;
      speed := MaxSpeed;
      snake := [Start];
      direction := Right;
      var placed := GenerateFood([Start], draws);
      food := placed;
      gameLoop := None;
      moveQueue := [];
    }

    /** startGame: the score back to 0 and a timer started at the current speed. */
    method StartGame()
      requires Valid()
      modifies this`score, this`gameLoop
      ensures Valid()
      ensures score == 0 && gameLoop == Some(speed)
    {
      score := 0;
      gameLoop := Some(speed);
    }

    /**
     * changeDirection: the direction turns to the key's unless that would reverse it, and
     * the resulting direction is queued, for every key, recognised or not.
     */
    method ChangeDirection(key: string)
      requires Valid()
      modifies this`direction, this`moveQueue
      ensures Valid()
      ensures direction == TurnOnInput(old(direction), key)
      ensures direction != Opposite(old(direction))
      ensures moveQueue == old(moveQueue) + [direction]
    {
      var newDirection := KeyDirection(key);
      if newDirection.Some? && newDirection.value != Opposite(direction) {
        direction := newDirection.value;
      }
      moveQueue := moveQueue + [direction];
    }

    /** The head moveSnake will produce from the current state. */
    ghost function PendingHead(): Cell
      reads this
      requires snake != []
    {
      NewHead(snake[0], NextDirection(direction, moveQueue))
    }

    /**
     * The first block of moveSnake: shift one move off the queue and adopt it unless it
     * reverses `direction`.
     */
    method ConsumeQueuedMove()
      requires Valid()
      modifies this`direction, this`moveQueue
      ensures Valid()
      ensures direction == NextDirection(old(direction), old(moveQueue))
      ensures moveQueue == Dequeued(old(moveQueue))
    {
      if moveQueue != [] {
        var nextMove := moveQueue[0];
        moveQueue := moveQueue[1..];
        if nextMove != Opposite(direction) {
          direction := nextMove;
        }
      }
    }

    /** The speed update of moveSnake's eating branch, from the already increased score. */
    method UpdateSpeed()
      modifies this`speed
      ensures speed == NextSpeed(score, old(speed))
      ensures SpeedInRange(old(speed)) ==> SpeedInRange(speed) && speed <= old(speed)
    {
      if score < RandomThreshold {
        if speed > MinSpeed {
          speed := speed - Decrement;
        }
      } else {
        speed := MinSpeed;
      }
    }

    /**
     * moveSnake: consume one queued move (refusing a reversal of `direction`), push the
     * new head, and either eat (score + 10, new food, new speed, timer rescheduled) or
     * drop the tail. `draws` are the random numbers generateFood would use.
     */
    method MoveSnake(draws: seq<(real, real)>)
      requires Valid()
      requires ValidDraws(draws)
      requires PendingHead() == food ==> HasFreeDraw([food] + snake, draws)
      modifies this
      ensures Valid()
      ensures direction == NextDirection(old(direction), old(moveQueue))
      ensures direction != Opposite(old(direction))
      ensures moveQueue == Dequeued(old(moveQueue))
      ensures snake == Advance(old(snake), direction, old(food))
      ensures snake[0] == old(food) ==>
                && |snake| == |old(snake)| + 1
                && score == old(score) + Reward
                && speed == NextSpeed(score, old(speed)) && speed <= old(speed)
                && food == FirstFree(snake, draws)
                && gameLoop == Some(speed)
      ensures snake[0] != old(food) ==>
                && |snake| == |old(snake)|
                && score == old(score) && speed == old(speed)
                && food == old(food) && gameLoop == old(gameLoop)
    {
      ConsumeQueuedMove();

      var head := NewHead(snake[0], direction);
      AdvanceKeepsAligned(snake, direction, food);
      ghost var advanced := Advance(snake, direction, food);
      snake := [head] + snake;

      if head == food {
        score := score + Reward;
        food := GenerateFood(snake, draws);
        UpdateSpeed();
        gameLoop := Some(speed);
      } else {
        AdvanceKeepsFoodFree(snake[1..], direction, food);
        snake := snake[..|snake| - 1];
      }
      assert snake == advanced;
    }

    /**
     * checkCollision: on a collision the timer is cleared and the final score is sent to
     * the host page (the returned message); otherwise nothing happens.
     */
    method CheckCollision() returns (message: Option<int>)
      requires Valid()
      modifies this`gameLoop
      ensures Valid()
      ensures gameLoop == if Collides(snake) then None else old(gameLoop)
      ensures message == if Collides(snake) then Some(score) else None
    {
      var head := snake[0];
      if head.x < 0 || head.x >= CanvasSize || head.y < 0 || head.y >= CanvasSize || head in snake[1..] {
        message := Some(score);
        gameLoop := None;
      } else {
        message := None;
      }
    }

    /**
     * update, one timer tick: the step of moveSnake, then checkCollision on its result.
     * Whenever a timer is still live afterwards, the head is inside the canvas and off
     * the body.
     */
    method Update(draws: seq<(real, real)>) returns (message: Option<int>)
      requires Valid()
      requires ValidDraws(draws)
      requires PendingHead() == food ==> HasFreeDraw([food] + snake, draws)
      modifies this
      ensures Valid()
      ensures direction == NextDirection(old(direction), old(moveQueue))
      ensures moveQueue == Dequeued(old(moveQueue))
      ensures snake == Advance(old(snake), direction, old(food))
      ensures snake[0] == old(food) ==>
                && score == old(score) + Reward
                && speed == NextSpeed(score, old(speed))
                && food == FirstFree(snake, draws)
      ensures snake[0] != old(food) ==>
                score == old(score) && speed == old(speed) && food == old(food)
      ensures gameLoop == if Collides(snake) then None
                          else if snake[0] == old(food) then Some(speed)
                          else old(gameLoop)
      ensures message == if Collides(snake) then Some(score) else None
      ensures gameLoop.Some? ==> InCanvas(snake[0]) && snake[0] !in snake[1..]
      ensures message.Some? <==> Collides(snake)
      ensures message.Some? ==> message.value == score && gameLoop == None
    {
      MoveSnake(draws);
      message := CheckCollision();
    }

    /**
     * restartGame: one segment at the start cell heading right, score 0, speed back to
     * SPEED.MAX, an empty queue, fresh food and a timer at SPEED.MAX.
     */
    method RestartGame(draws: seq<(real, real)>)
      requires Valid()
      requires ValidDraws(draws) && HasFreeDraw([Start], draws)
      modifies this
      ensures Valid()
      ensures snake == [Start] && direction == Right && score == 0 && speed == MaxSpeed
      ensures moveQueue == [] && food == FirstFree([Start], draws)
      ensures gameLoop == Some(MaxSpeed)
    {
      snake := [Start];
      direction := Right;
      score := 0;
      speed := MaxSpeed;
      moveQueue := [];
      food := GenerateFood(snake, draws);
      gameLoop := Some(speed);
    }
  }
}
