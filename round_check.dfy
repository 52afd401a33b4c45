/**
 * The round-completeness check: pairing for the next round may start only when the
 * matches recorded so far make up whole rounds.
 */
module RoundCheck {

  datatype RoundStatus =
    | Complete      // `registered_matches == 0 or registered_matches % perRound == 0` holds
    | Incomplete    // the check fails
    | DivideByZero  // matches are recorded but perRound is 0, so `%` raises

  /** The test `recorded == 0 or recorded % perRound == 0`, with Python's short-circuit `or`. */
  function CheckRound(recorded: nat, perRound: nat): (s: RoundStatus)
    ensures s == DivideByZero <==> recorded > 0 && perRound == 0
  {
    if recorded == 0 then Complete
    else if perRound == 0 then DivideByZero
    else if recorded % perRound == 0 then Complete
    else Incomplete
  }

  /**
   * Matches per round: P/2 for an even player count and (P+1)/2 for an odd one, since the
   * bye of an odd round is recorded as a match of its own.
   */
  function MatchesPerRound(playerCount: nat): (r: nat)
    ensures playerCount <= 2 * r <= playerCount + 1
  {
    if playerCount % 2 == 0 then playerCount / 2 else (playerCount + 1) / 2
  }

  lemma ProductAtLeast(k: int, m: int)
    requires k > 0 && m >= 1
    ensures k * m >= k
  {
  }

  lemma ProductAtMost(k: int, m: int)
    requires k > 0 && m <= -1
    ensures k * m <= -k
  {
  }

  lemma MultipleHasNoRemainder(rounds: int, perRound: int)
    requires perRound > 0
    ensures (rounds * perRound) % perRound == 0
  {
    var y := rounds * perRound;
    var q, r := y / perRound, y % perRound;
    var m := rounds - q;
    assert perRound * m == r by {
      assert perRound * m == perRound * rounds - perRound * q;
    }
    if m >= 1 {
      ProductAtLeast(perRound, m);
    } else if m <= -1 {
      ProductAtMost(perRound, m);
    }
  }

  /** The check passes exactly when the recorded matches are a whole number of rounds. */
  lemma CheckRoundWholeRounds(recorded: nat, perRound: nat)
    ensures CheckRound(recorded, perRound) == Complete <==>
            exists rounds: nat :: recorded == rounds * perRound
  {
    if CheckRound(recorded, perRound) == Complete {
      if recorded == 0 {
        assert recorded == 0 * perRound;
      } else {
        assert recorded == (recorded / perRound) * perRound;
      }
    }
    if exists rounds: nat :: recorded == rounds * perRound {
      var rounds: nat :| recorded == rounds * perRound;
      if perRound > 0 {
        MultipleHasNoRemainder(rounds, perRound);
      }
    }
  }
}
