/**
 * The data the pairing core consumes: players as they appear in the standings,
 * pairings as the rows (id1, name1, id2, name2) that the pairing functions return,
 * and the match history that the bye and rematch queries count over.
 */
module TournamentData {

  datatype Option<+T> = None | Some(value: T)

  /** How a pairing request ends when it does not produce a pairing list. */
  datatype PairingError =
    | RoundNotFinished      // odd player count, incomplete round: the exception raised by getPairingsWithBye
    | ResultNotIterable     // even player count, incomplete round: db_result stays 0 and cannot be iterated
    | DivisionByZero        // matches recorded but zero pairings per round: `%` by zero
    | ByeUnassigned         // every player already had a bye: bye_pairing is read before it is assigned
    | NoRematchFreePairing  // the rematch resolver used up its pass limit

  datatype Result<+T> = Ok(value: T) | Err(error: PairingError)

  type PlayerId = int

  /** A standings row as far as pairing is concerned: the id and the name carried along with it. */
  datatype Player = Player(id: PlayerId, name: string)

  /** One row of a round's pairing list; a bye is a player paired with themself. */
  datatype Pairing = Pairing(first: Player, second: Player)

  /** A row of the matches table; a bye is recorded with winner == loser. */
  datatype MatchRecord = MatchRecord(winner: PlayerId, loser: PlayerId, draw: bool)

  type History = seq<MatchRecord>

  /** SQL `count(*) FROM matches WHERE keep`. */
  function CountWhere(h: History, keep: MatchRecord -> bool): (r: nat)
    ensures r <= |h|
    decreases |h|
  {
    if h == [] then 0 else (if keep(h[0]) then 1 else 0) + CountWhere(h[1..], keep)
  }

  lemma {:induction false} CountWherePositive(h: History, keep: MatchRecord -> bool)
    ensures CountWhere(h, keep) > 0 <==> exists i :: 0 <= i < |h| && keep(h[i])
    decreases |h|
  {
    if h != [] {
      CountWherePositive(h[1..], keep);
      if exists i :: 0 <= i < |h[1..]| && keep(h[1..][i]) {
        var i :| 0 <= i < |h[1..]| && keep(h[1..][i]);
        assert keep(h[i + 1]);
      }
      if exists i :: 0 <= i < |h| && keep(h[i]) {
        var i :| 0 <= i < |h| && keep(h[i]);
        if i > 0 {
          assert keep(h[1..][i - 1]);
        }
      }
    }
  }

  /** The record is a bye granted to p. */
  predicate IsSelfMatch(r: MatchRecord, p: PlayerId) {
    r.winner == p && r.loser == p
  }

  /** The record is a match between a and b, with either one as the winner. */
  predicate IsMatchBetween(r: MatchRecord, a: PlayerId, b: PlayerId) {
    (r.winner == a && r.loser == b) || (r.winner == b && r.loser == a)
  }

  /** The bye query of getPairingsWithBye: matches with winner = loser = p. */
  function ByeCount(h: History, p: PlayerId): (r: nat)
    ensures r <= |h|
    ensures r > 0 <==> exists i :: 0 <= i < |h| && IsSelfMatch(h[i], p)
  {
    var keep := (rec: MatchRecord) => IsSelfMatch(rec, p);
    CountWherePositive(h, keep);
    CountWhere(h, keep)
  }

  /** The rematch query of swissPairings: matches between a and b in either order. */
  function RematchCount(h: History, a: PlayerId, b: PlayerId): (r: nat)
    ensures r <= |h|
    ensures r > 0 <==> exists i :: 0 <= i < |h| && IsMatchBetween(h[i], a, b)
  {
    var keep := (rec: MatchRecord) => IsMatchBetween(rec, a, b);
    CountWherePositive(h, keep);
    CountWhere(h, keep)
  }

  predicate HasBye(h: History, p: PlayerId) {
    ByeCount(h, p) > 0
  }

  predicate IsRematch(h: History, pairing: Pairing) {
    RematchCount(h, pairing.first.id, pairing.second.id) > 0
  }

  /** Whether a pairing is a rematch does not depend on which player sits on which side. */
  lemma RematchSymmetric(h: History, a: Player, b: Player)
    ensures IsRematch(h, Pairing(a, b)) <==> IsRematch(h, Pairing(b, a))
  {
    assert forall i :: 0 <= i < |h| ==> (IsMatchBetween(h[i], a.id, b.id) <==> IsMatchBetween(h[i], b.id, a.id));
  }

  /** The `left` column (id1, name1) of a pairing list. */
  function Lefts(db: seq<Pairing>): seq<Player> {
    seq(|db|, i requires 0 <= i < |db| => db[i].first)
  }

  /** The `right` column (id2, name2) of a pairing list. */
  function Rights(db: seq<Pairing>): seq<Player> {
    seq(|db|, i requires 0 <= i < |db| => db[i].second)
  }

  /** Every player placed in a pairing list, with multiplicity. */
  function Roster(db: seq<Pairing>): multiset<Player>
    decreases |db|
  {
    if db == [] then multiset{} else multiset{db[0].first, db[0].second} + Roster(db[1..])
  }

  /** Putting one pairing in front adds its two players to the roster. */
  lemma RosterPrepend(x: Pairing, rest: seq<Pairing>)
    ensures Roster([x] + rest) == multiset{x.first, x.second} + Roster(rest)
  {
    assert ([x] + rest)[1..] == rest;
  }

  lemma LeftsRightsFront(db: seq<Pairing>)
    requires db != []
    ensures Lefts(db) == [db[0].first] + Lefts(db[1..])
    ensures Rights(db) == [db[0].second] + Rights(db[1..])
  {
  }

  /** The roster is what the two columns hold together. */
  lemma {:induction false} RosterColumns(db: seq<Pairing>)
    ensures Roster(db) == multiset(Lefts(db)) + multiset(Rights(db))
    decreases |db|
  {
    if db != [] {
      RosterColumns(db[1..]);
      LeftsRightsFront(db);
    }
  }

  /** No pairing in the list repeats a recorded match. */
  predicate NoRematches(h: History, db: seq<Pairing>) {
    forall i :: 0 <= i < |db| ==> !IsRematch(h, db[i])
  }

  /** Player ids are unique in the standings (the players table's key). */
  predicate DistinctIds(s: seq<Player>) {
    forall i, j :: 0 <= i < j < |s| ==> s[i].id != s[j].id
  }
}
