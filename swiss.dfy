/**
 * swissPairings: the round check and base pairing for the player count's parity, the
 * rematch resolver, and the bye put in front of the result.
 */
module Swiss {
  import opened TournamentData
  import opened RoundCheck
  import opened ByePairing
  import opened Resolver
  import opened Shuffling

  /**
   * What the database supplies: the standings rows (their count is the number of
   * registered players), every recorded match (their count is the number of registered
   * matches), and the rows of the `pairings` view used when the player count is even.
   */
  datatype Tournament = Tournament(standings: seq<Player>, history: History, pairingsView: seq<Pairing>)

  /** The pairings before rematches are resolved, with the bye kept apart. */
  datatype BaseRound = BaseRound(bye: Option<Pairing>, pairs: seq<Pairing>)

  /**
   * The base pairing of swissPairings, or the way it fails, for either parity. An even
   * count takes the view's rows as they are and has no bye; an odd count has one.
   */
  function BasePairings(t: Tournament): (r: Result<BaseRound>)
    ensures r.Ok? ==> (r.value.bye.Some? <==> |t.standings| % 2 == 1)
    ensures r.Ok? && |t.standings| % 2 == 0 ==> r.value.pairs == t.pairingsView
    ensures r.Err? && |t.standings| % 2 == 0 ==> r.error in {ResultNotIterable, DivisionByZero}
    ensures r.Err? && |t.standings| % 2 == 1 ==> r.error in {RoundNotFinished, ByeUnassigned}
  {
    var playerCount := |t.standings|;
    if playerCount % 2 == 0 then
      match CheckRound(|t.history|, playerCount / 2)
      case Complete => Ok(BaseRound(None, t.pairingsView))
      case Incomplete => Err(ResultNotIterable)
      case DivideByZero => Err(DivisionByZero)
    else
      match ByeRoundOf(t.standings, t.history)
      case Ok(b) => Ok(BaseRound(Some(b.bye), b.pairs))
      case Err(e) => Err(e)
  }

  /** The error of a failed round check, for either parity. */
  predicate IsRoundCheckError(e: PairingError) {
    e == RoundNotFinished || e == ResultNotIterable || e == DivisionByZero
  }

  /**
   * Both branches of swissPairings apply one round-completeness rule: the base pairing
   * fails in its round check exactly when the recorded matches are not a whole number
   * of rounds of MatchesPerRound(P) matches.
   */
  lemma BasePairingsRoundCheck(t: Tournament)
    ensures BasePairings(t).Err? && IsRoundCheckError(BasePairings(t).error) <==>
            !exists rounds: nat :: |t.history| == rounds * MatchesPerRound(|t.standings|)
  {
    var playerCount := |t.standings|;
    var perRound := if playerCount % 2 == 0 then playerCount / 2 else (playerCount + 1) / 2;
    assert perRound == MatchesPerRound(playerCount);
    CheckRoundWholeRounds(|t.history|, perRound);
  }

  /** The bye pairing as a list of zero or one rows. */
  function ByeRows(bye: Option<Pairing>): seq<Pairing> {
    match bye
    case None => []
    case Some(p) => [p]
  }

  /**
   * A failing base pairing fails the request the same way. Otherwise the result is the
   * bye, if any, followed by a rematch-free list with the same players as the base
   * pairings, or the resolver ran out of passes. Base pairings without a rematch are
   * returned as they are.
   */
  method SwissPairings(t: Tournament, rand: RandomStream, drawn: nat, maxPasses: nat)
    returns (r: Result<seq<Pairing>>, drawn': nat)
    ensures BasePairings(t).Err? ==> r == Err(BasePairings(t).error)
    ensures BasePairings(t).Ok? && r.Err? ==> r.error == NoRematchFreePairing
    ensures r.Ok? ==>
              var base := BasePairings(t).value;
              var k := |ByeRows(base.bye)|;
              && |r.value| == k + |base.pairs|
              && r.value[..k] == ByeRows(base.bye)
              && NoRematches(t.history, r.value[k..])
              && Roster(r.value[k..]) == Roster(base.pairs)
    ensures BasePairings(t).Ok? && maxPasses > 0 && NoRematches(t.history, BasePairings(t).value.pairs) ==>
              r == Ok(ByeRows(BasePairings(t).value.bye) + BasePairings(t).value.pairs)
    ensures r.Ok? && |t.standings| % 2 == 1 && DistinctIds(t.standings) ==>
              && |r.value| == MatchesPerRound(|t.standings|)
              && r.value[0].first == r.value[0].second && r.value[0].first in t.standings
              && !HasBye(t.history, r.value[0].first.id)
              && forall p :: Roster(r.value[1..])[p] ==
                               if p in t.standings && p.id != r.value[0].first.id then 1 else 0
  {
    drawn' := drawn;
    var playerCount := |t.standings|;
    var registeredMatches := |t.history|;
    var byePairing: Option<Pairing> := None;
    var dbResult: seq<Pairing>;
    if playerCount % 2 == 0 {
      var status := CheckRound(registeredMatches, playerCount / 2);
      if status == DivideByZero {
        return Err(DivisionByZero), drawn';
      }
      if status == Incomplete {
        return Err(ResultNotIterable), drawn';
      }
      dbResult := t.pairingsView;
    } else {
      var withBye := GetPairingsWithBye(t.standings, t.history);
      if withBye.Err? {
        return Err(withBye.error), drawn';
      }
      byePairing := Some(withBye.value.bye);
      dbResult := withBye.value.pairs;
    }
    assert BasePairings(t) == Ok(BaseRound(byePairing, dbResult));
    var resolved;
    resolved, drawn' := ResolveRematches(t.history, dbResult, rand, drawn', maxPasses);
    if resolved.Err? {
      return Err(resolved.error), drawn';
    }
    r := Ok(ByeRows(byePairing) + resolved.value);
    assert r.value[|ByeRows(byePairing)|..] == resolved.value;
    if playerCount % 2 == 1 && DistinctIds(t.standings) {
      ByeRoundPlacesEveryPlayerOnce(t.standings, t.history);
    }
  }
}
