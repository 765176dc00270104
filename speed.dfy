/**
 * The score-driven tick interval of public/snake/script.js (the `SPEED` table and the
 * update at the end of moveSnake's eating branch). A smaller interval is a faster game.
 */
module Speed {
  /** SPEED.MAX: the starting (slowest) interval. */
  const MaxSpeed: int := 100
  /** SPEED.MIN: the fastest interval. */
  const MinSpeed: int := 50
  /** SPEED.DECREMENT: how much each food shortens the interval. */
  const Decrement: int := 5
  /** SPEED.RANDOM_THRESHOLD: the score from which the interval is pinned at SPEED.MIN. */
  const RandomThreshold: int := 200
  /** Points scored per food eaten (`score += 10`). */
  const Reward: int := 10

  /** An interval the policy can produce from SPEED.MAX: in [MIN, MAX] and on the 5-step ladder. */
  predicate SpeedInRange(speed: int) {
    MinSpeed <= speed <= MaxSpeed && (speed - MinSpeed) % Decrement == 0
  }

  /**
   * The interval after food is eaten, given the already increased score: below the
   * threshold one decrement while above MIN, from the threshold on MIN itself.
   */
  function NextSpeed(score: int, speed: int): (r: int)
    ensures SpeedInRange(speed) ==> SpeedInRange(r) && r <= speed
    ensures score >= RandomThreshold ==> r == MinSpeed
    ensures score < RandomThreshold ==> (r == speed - Decrement <==> speed > MinSpeed)
    ensures score < RandomThreshold && speed <= MinSpeed ==> r == speed
  {
    if score < RandomThreshold then
      if speed > MinSpeed then speed - Decrement else speed
    else
      MinSpeed
  }

  /** (score, speed) after `eaten` foods in a game begun by restartGame: (0, SPEED.MAX) updated per food. */
  function SpeedAfter(eaten: nat): (int, int) {
    if eaten == 0 then (0, MaxSpeed)
    else
      var previous := SpeedAfter(eaten - 1);
      var score := previous.0 + Reward;
      (score, NextSpeed(score, previous.1))
  }

  /**
   * The whole speed curve: after n foods the score is 10n and the interval is
   * 100 - 5n until it reaches MIN at n = 10 (score 100), and MIN from then on.
   */
  lemma {:induction false} SpeedAfterClosedForm(eaten: nat)
    ensures SpeedAfter(eaten).0 == Reward * eaten
    ensures SpeedAfter(eaten).1 == if eaten < 10 then MaxSpeed - Decrement * eaten else MinSpeed
  {
    if eaten > 0 {
      SpeedAfterClosedForm(eaten - 1);
    }
  }

  /**
   * Within a game the interval stays in [MIN, MAX], never grows, and is MIN once the
   * score has reached the threshold.
   */
  lemma SpeedCurveProperties(eaten: nat)
    ensures SpeedInRange(SpeedAfter(eaten).1)
    ensures SpeedAfter(eaten + 1).1 <= SpeedAfter(eaten).1
    ensures SpeedAfter(eaten).0 >= RandomThreshold ==> SpeedAfter(eaten).1 == MinSpeed
  {
    SpeedAfterClosedForm(eaten);
    SpeedAfterClosedForm(eaten + 1);
  }

  /**
   * The interval is already MIN at score 100, so from a restarted game the threshold
   * branch never changes it: at every score at or above the threshold, the decrement
   * branch would have produced MIN as well.
   */
  lemma ThresholdBranchChangesNothing(eaten: nat)
    requires SpeedAfter(eaten + 1).0 >= RandomThreshold
    ensures SpeedAfter(eaten + 1).1 == SpeedAfter(eaten).1 == MinSpeed
    ensures (if SpeedAfter(eaten).1 > MinSpeed then SpeedAfter(eaten).1 - Decrement else SpeedAfter(eaten).1) == MinSpeed
  {
    SpeedAfterClosedForm(eaten);
    SpeedAfterClosedForm(eaten + 1);
  }
}
