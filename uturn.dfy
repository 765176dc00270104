/**
 * The U-turn pattern helpers of public/snake/script.js (isUTurnPattern,
 * getUTurnSequence and the `uTurnPatterns` table). Nothing in the game calls them.
 */
module UTurn {
  import opened Wrappers
  import opened Directions

  /** A pair of keys: a pattern and, for getUTurnSequence, the moves it returns. */
  type KeyPair = (string, string)

  /**
   * `uTurnPatterns[direction]`: the two key pairs that describe a U-turn from that
   * heading. Each pair is an arrow key for one of the two sideways headings, followed by
   * the arrow key for the reverse heading.
   */
  function UTurnPatterns(d: Dir): (r: seq<KeyPair>)
    ensures |r| == 2 && r[0].0 != r[1].0
    ensures forall i :: 0 <= i < |r| ==>
              r[i].1 == KeyName(Opposite(d)) &&
              KeyDirection(r[i].0).Some? &&
              KeyDirection(r[i].0).value != d && KeyDirection(r[i].0).value != Opposite(d)
  {
    match d
    case Right => [("ArrowUp", "ArrowLeft"), ("ArrowDown", "ArrowLeft")]
    case Left => [("ArrowUp", "ArrowRight"), ("ArrowDown", "ArrowRight")]
    case Up => [("ArrowLeft", "ArrowDown"), ("ArrowRight", "ArrowDown")]
    case Down => [("ArrowLeft", "ArrowUp"), ("ArrowRight", "ArrowUp")]
  }

  /** Both keys of the pattern are among the pressed keys, in either order. */
  predicate Matches(keys: seq<string>, pattern: KeyPair) {
    pattern.0 in keys && pattern.1 in keys
  }

  /**
   * isUTurnPattern: exactly two keys, and some pattern of the heading matches them; so a
   * detected U-turn always includes the key of the reverse heading.
   */
  function IsUTurnPattern(keys: seq<string>, current: Dir): (r: bool)
    ensures r ==> |keys| == 2 && KeyName(Opposite(current)) in keys
  {
    var patterns := UTurnPatterns(current);
    |keys| == 2 && exists i :: 0 <= i < |patterns| && Matches(keys, patterns[i])
  }

  /** `patterns.find(...)`: the first pattern that matches, or nothing. */
  function FindMatch(keys: seq<string>, patterns: seq<KeyPair>): (r: Option<KeyPair>)
    ensures r.None? <==> forall i :: 0 <= i < |patterns| ==> !Matches(keys, patterns[i])
    ensures r.Some? ==> exists i :: 0 <= i < |patterns| && patterns[i] == r.value &&
                                    Matches(keys, r.value) &&
                                    forall j :: 0 <= j < i ==> !Matches(keys, patterns[j])
  {
    if patterns == [] then None
    else if Matches(keys, patterns[0]) then Some(patterns[0])
    else
      var r := FindMatch(keys, patterns[1..]);
      assert forall i :: 0 < i < |patterns| ==> patterns[1..][i - 1] == patterns[i];
      r
  }

  /**
   * getUTurnSequence: the first pattern of the heading whose two keys are both pressed,
   * whatever the number of keys.
   */
  function GetUTurnSequence(keys: seq<string>, current: Dir): (r: Option<KeyPair>)
    ensures r.Some? ==> r.value in UTurnPatterns(current) && Matches(keys, r.value)
  {
    FindMatch(keys, UTurnPatterns(current))
  }

  /**
   * The two helpers agree: a pattern is detected exactly when two keys were pressed and
   * getUTurnSequence finds a pattern, and then both of its keys are among them.
   */
  lemma DetectionAgreesWithSequence(keys: seq<string>, current: Dir)
    ensures IsUTurnPattern(keys, current) <==> |keys| == 2 && GetUTurnSequence(keys, current).Some?
    ensures IsUTurnPattern(keys, current) ==>
              GetUTurnSequence(keys, current).value.0 in keys &&
              GetUTurnSequence(keys, current).value.1 in keys
  {
  }

  /**
   * A returned sequence does what its name says: fed to the input handler in order, its
   * first key turns sideways and its second completes the U-turn, so the snake ends up
   * heading the opposite way without ever reversing in one step.
   */
  lemma UTurnSequenceReverses(keys: seq<string>, current: Dir)
    requires GetUTurnSequence(keys, current).Some?
    ensures var p := GetUTurnSequence(keys, current).value;
            var middle := TurnOnInput(current, p.0);
            middle != current && middle != Opposite(current) &&
            TurnOnInput(middle, p.1) == Opposite(current)
  {
    var p := GetUTurnSequence(keys, current).value;
    var patterns := UTurnPatterns(current);
    assert p == patterns[0] || p == patterns[1];
    var sideways := KeyDirection(p.0).value;
    KeyRoundTrip(sideways, p.0);
    TurnOnInputAdopts(current, sideways);
    OppositeInvolutive(current);
    OppositeInvolutive(sideways);
    TurnOnInputAdopts(sideways, Opposite(current));
  }
}
