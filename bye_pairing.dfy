/**
 * getPairingsWithBye: for an odd player count, the bye goes to the last standings row
 * whose player has no recorded bye, and the remaining rows are paired 1-2, 3-4, ...
 */
module ByePairing {
  import opened TournamentData
  import opened RoundCheck

  /** The bye pairing and the adjacent pairings of the other players. */
  datatype ByeRound = ByeRound(bye: Pairing, pairs: seq<Pairing>)

  /** The search of the bye loop: the largest index whose player has never had a bye. */
  function LastWithoutBye(s: seq<Player>, h: History): (r: Option<nat>)
    ensures r.Some? ==> r.value < |s| && !HasBye(h, s[r.value].id)
    ensures r.Some? ==> forall j :: r.value < j < |s| ==> HasBye(h, s[j].id)
    ensures r.None? <==> forall j :: 0 <= j < |s| ==> HasBye(h, s[j].id)
    decreases |s|
  {
    if s == [] then None
    else if !HasBye(h, s[|s| - 1].id) then Some(|s| - 1)
    else LastWithoutBye(s[..|s| - 1], h)
  }

  /** The rows of the standings `WHERE id !=` the given id, in their order. */
  function WithoutPlayer(s: seq<Player>, id: PlayerId): (r: seq<Player>)
    ensures |r| <= |s|
    decreases |s|
  {
    if s == [] then [] else (if s[0].id != id then [s[0]] else []) + WithoutPlayer(s[1..], id)
  }

  /**
   * The self-join on ROW_NUMBER: row 2k+1 is paired with row 2k+2 (counting from 1);
   * an odd row left at the end finds no partner.
   */
  function AdjacentPairs(s: seq<Player>): (r: seq<Pairing>)
    ensures |r| == |s| / 2
    decreases |s|
  {
    if |s| < 2 then [] else [Pairing(s[0], s[1])] + AdjacentPairs(s[2..])
  }

  /** Pair k holds rows 2k and 2k+1 (counting from 0). */
  lemma {:induction false} AdjacentPairsAt(s: seq<Player>, k: nat)
    requires k < |s| / 2
    ensures AdjacentPairs(s)[k] == Pairing(s[2 * k], s[2 * k + 1])
    decreases k
  {
    if k > 0 {
      AdjacentPairsAt(s[2..], k - 1);
    }
  }

  /**
   * What getPairingsWithBye returns for a standings list and a match history. It fails
   * only in the round check or for want of a player without a bye; otherwise the bye
   * is a standings player without one, paired with themself.
   */
  function ByeRoundOf(s: seq<Player>, h: History): (r: Result<ByeRound>)
    ensures r.Err? ==> r.error in {DivisionByZero, RoundNotFinished, ByeUnassigned}
    ensures r.Err? && r.error == ByeUnassigned <==>
            CheckRound(|h|, (|s| + 1) / 2) == Complete && forall j :: 0 <= j < |s| ==> HasBye(h, s[j].id)
    ensures r.Ok? ==>
              && r.value.bye.first == r.value.bye.second
              && r.value.bye.first in s
              && !HasBye(h, r.value.bye.first.id)
  {
    match CheckRound(|h|, (|s| + 1) / 2)
    case DivideByZero => Err(DivisionByZero)
    case Incomplete => Err(RoundNotFinished)
    case Complete =>
      match LastWithoutBye(s, h)
      case None => Err(ByeUnassigned)
      case Some(i) => Ok(ByeRound(Pairing(s[i], s[i]), AdjacentPairs(WithoutPlayer(s, s[i].id))))
  }

  /** The round check, then the walk from the bottom row upwards for a player without a bye. */
  method GetPairingsWithBye(s: seq<Player>, h: History) returns (r: Result<ByeRound>)
    ensures r == ByeRoundOf(s, h)
  {
    var playerCount := |s|;
    var status := CheckRound(|h|, (playerCount + 1) / 2);
    if status == DivideByZero {
      return Err(DivisionByZero);
    }
    if status == Incomplete {
      return Err(RoundNotFinished);
    }
    var currIndex := playerCount;
    while currIndex > 0
      invariant 0 <= currIndex <= playerCount
      invariant forall j :: currIndex <= j < playerCount ==> HasBye(h, s[j].id)
    {
      var player := s[currIndex - 1];
      if ByeCount(h, player.id) == 0 {
        var byePairing := Pairing(player, player);
        var pairs := AdjacentPairs(WithoutPlayer(s, player.id));
        return Ok(ByeRound(byePairing, pairs));
      }
      currIndex := currIndex - 1;
    }
    r := Err(ByeUnassigned);
  }

  lemma MultisetFrontTwo(s: seq<Player>)
    requires |s| >= 2
    ensures multiset(s) == multiset{s[0], s[1]} + multiset(s[2..])
  {
    assert s == [s[0], s[1]] + s[2..];
  }

  /** Pairing an even number of rows places every row exactly once. */
  lemma {:induction false} AdjacentPairsRoster(s: seq<Player>)
    requires |s| % 2 == 0
    ensures Roster(AdjacentPairs(s)) == multiset(s)
    decreases |s|
  {
    if |s| >= 2 {
      AdjacentPairsRoster(s[2..]);
      RosterPrepend(Pairing(s[0], s[1]), AdjacentPairs(s[2..]));
      MultisetFrontTwo(s);
    }
  }

  /** Removing an id keeps the multiplicity of every other player and drops that id entirely. */
  lemma {:induction false} WithoutPlayerCounts(s: seq<Player>, id: PlayerId, p: Player)
    ensures multiset(WithoutPlayer(s, id))[p] == if p.id == id then 0 else multiset(s)[p]
    decreases |s|
  {
    if s != [] {
      WithoutPlayerCounts(s[1..], id, p);
      assert s == [s[0]] + s[1..];
    }
  }

  lemma {:induction false} DistinctCounts(s: seq<Player>, p: Player)
    requires DistinctIds(s)
    ensures multiset(s)[p] == if p in s then 1 else 0
    decreases |s|
  {
    if s != [] {
      DistinctCounts(s[1..], p);
      assert s == [s[0]] + s[1..];
      if p == s[0] {
        assert p !in s[1..];
      }
    }
  }

  /** A filter on an id that no row carries keeps every row. */
  lemma {:induction false} WithoutAbsentPlayer(s: seq<Player>, id: PlayerId)
    requires forall j :: 0 <= j < |s| ==> s[j].id != id
    ensures WithoutPlayer(s, id) == s
    decreases |s|
  {
    if s != [] {
      WithoutAbsentPlayer(s[1..], id);
      assert s == [s[0]] + s[1..];
    }
  }

  /** With unique ids, dropping the id of row i leaves the other rows in standings order. */
  lemma {:induction false} WithoutPlayerOrder(s: seq<Player>, i: nat)
    requires DistinctIds(s) && i < |s|
    ensures WithoutPlayer(s, s[i].id) == s[..i] + s[i + 1..]
    decreases i
  {
    var tail := s[1..];
    if i == 0 {
      WithoutAbsentPlayer(tail, s[0].id);
    } else {
      assert tail[i - 1] == s[i];
      WithoutPlayerOrder(tail, i - 1);
      assert tail[..i - 1] + tail[i..] == s[1..i] + s[i + 1..];
      assert s[..i] == [s[0]] + s[1..i];
    }
  }

  /** With unique ids, dropping the id of one row shortens the standings by exactly one. */
  lemma {:induction false} WithoutPlayerLength(s: seq<Player>, i: nat)
    requires DistinctIds(s) && i < |s|
    ensures |WithoutPlayer(s, s[i].id)| == |s| - 1
  {
    var r := WithoutPlayer(s, s[i].id);
    forall p ensures multiset(r)[p] == (multiset(s) - multiset{s[i]})[p] {
      WithoutPlayerCounts(s, s[i].id, p);
      DistinctCounts(s, p);
      if p.id == s[i].id && p in s {
        var j :| 0 <= j < |s| && s[j] == p;
        assert j == i;
      }
    }
    assert multiset(r) == multiset(s) - multiset{s[i]};
    assert multiset(s) == multiset(s) - multiset{s[i]} + multiset{s[i]};
  }

  lemma DistinctWithoutPlayerCounts(s: seq<Player>, id: PlayerId, p: Player)
    requires DistinctIds(s)
    ensures multiset(WithoutPlayer(s, id))[p] == if p in s && p.id != id then 1 else 0
  {
    WithoutPlayerCounts(s, id, p);
    DistinctCounts(s, p);
  }

  /** With unique ids and an odd count, pairing the rows left after one is removed places each of them once. */
  lemma PairsWithoutOnePlayer(s: seq<Player>, i: nat, p: Player)
    requires |s| % 2 == 1 && DistinctIds(s) && i < |s|
    ensures |AdjacentPairs(WithoutPlayer(s, s[i].id))| == (|s| - 1) / 2
    ensures Roster(AdjacentPairs(WithoutPlayer(s, s[i].id)))[p] == if p in s && p.id != s[i].id then 1 else 0
  {
    var rest := WithoutPlayer(s, s[i].id);
    WithoutPlayerLength(s, i);
    AdjacentPairsRoster(rest);
    DistinctWithoutPlayerCounts(s, s[i].id, p);
  }

  /**
   * For an odd count of players with unique ids: the bye player has no bye yet and
   * appears in no other pairing, every other player appears in exactly one pairing, and
   * the round has (P+1)/2 pairings counting the bye, the number the round check expects.
   */
  lemma ByeRoundPlacesEveryPlayerOnce(s: seq<Player>, h: History)
    requires |s| % 2 == 1 && DistinctIds(s) && ByeRoundOf(s, h).Ok?
    ensures var b := ByeRoundOf(s, h).value;
            b.bye.first == b.bye.second && b.bye.first in s && !HasBye(h, b.bye.first.id)
    ensures var b := ByeRoundOf(s, h).value;
            forall p :: Roster(b.pairs)[p] == if p in s && p.id != b.bye.first.id then 1 else 0
    ensures 1 + |ByeRoundOf(s, h).value.pairs| == MatchesPerRound(|s|)
  {
    var i := LastWithoutBye(s, h).value;
    assert ByeRoundOf(s, h) == Ok(ByeRound(Pairing(s[i], s[i]), AdjacentPairs(WithoutPlayer(s, s[i].id))));
    forall p ensures Roster(AdjacentPairs(WithoutPlayer(s, s[i].id)))[p] == if p in s && p.id != s[i].id then 1 else 0 {
      PairsWithoutOnePlayer(s, i, p);
    }
    PairsWithoutOnePlayer(s, i, s[i]);
  }

  /**
   * The pairings of a bye round follow the standings: with row i taking the bye,
   * pairing k holds the rows at positions 2k and 2k+1 of the standings without row i.
   */
  lemma ByeRoundKeepsStandingsOrder(s: seq<Player>, h: History)
    requires DistinctIds(s) && ByeRoundOf(s, h).Ok?
    ensures var i := LastWithoutBye(s, h).value;
            var rest := s[..i] + s[i + 1..];
            var pairs := ByeRoundOf(s, h).value.pairs;
            && |pairs| == |rest| / 2
            && forall k :: 0 <= k < |pairs| ==> pairs[k] == Pairing(rest[2 * k], rest[2 * k + 1])
  {
    var i := LastWithoutBye(s, h).value;
    WithoutPlayerOrder(s, i);
    var rest := s[..i] + s[i + 1..];
    forall k | 0 <= k < |rest| / 2 ensures AdjacentPairs(rest)[k] == Pairing(rest[2 * k], rest[2 * k + 1]) {
      AdjacentPairsAt(rest, k);
    }
  }

  /** Five players after one complete round in which the last row had the bye. */
  function ExampleStandings(): seq<Player> {
    [Player(1, "a"), Player(2, "b"), Player(3, "c"), Player(4, "d"), Player(5, "e")]
  }

  function ExampleHistory(): History {
    [MatchRecord(5, 5, false), MatchRecord(1, 2, false), MatchRecord(3, 4, true)]
  }

  lemma ExampleByeIndex()
    ensures LastWithoutBye(ExampleStandings(), ExampleHistory()) == Some(3)
  {
    var h := ExampleHistory();
    assert IsSelfMatch(h[0], 5);
  }

  lemma ExampleRemainingPairs()
    ensures AdjacentPairs(WithoutPlayer(ExampleStandings(), 4))
            == [Pairing(Player(1, "a"), Player(2, "b")), Pairing(Player(3, "c"), Player(5, "e"))]
  {
    var s := ExampleStandings();
    assert WithoutPlayer(s[4..], 4) == [s[4]];
    assert WithoutPlayer(s[3..], 4) == [s[4]];
    assert WithoutPlayer(s[2..], 4) == [s[2], s[4]];
    assert WithoutPlayer(s[1..], 4) == [s[1], s[2], s[4]];
    var rest := WithoutPlayer(s, 4);
    assert rest == [s[0], s[1], s[2], s[4]];
    assert AdjacentPairs(rest[2..]) == [Pairing(s[2], s[4])];
  }

  /** The bye skips the last row, which already had one, and rows 1-2 and 3-5 are paired. */
  lemma ByeSkipsPlayerWithBye()
    ensures ByeRoundOf(ExampleStandings(), ExampleHistory())
            == Ok(ByeRound(Pairing(Player(4, "d"), Player(4, "d")),
                           [Pairing(Player(1, "a"), Player(2, "b")), Pairing(Player(3, "c"), Player(5, "e"))]))
  {
    ExampleByeIndex();
    ExampleRemainingPairs();
    assert |ExampleHistory()| == 3 && (|ExampleStandings()| + 1) / 2 == 3;
    assert CheckRound(3, 3) == Complete;
  }
}
