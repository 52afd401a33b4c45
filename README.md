# Swiss pairing for a tournament database, modelled in Dafny

This project models the pairing core of `tournament.py`. That Python 2 module keeps
players, tournaments and matches in PostgreSQL and computes the pairings of the next
round of a Swiss-system tournament. The modelled core is:

- **The round check.** A new round may be paired only when the recorded matches make
  up whole rounds: P/2 matches per round for P players when P is even, and (P+1)/2
  when P is odd, because a bye is recorded as a match of its own.
- **getPairingsWithBye.** For an odd player count, this walks the standings from the
  bottom row upwards. It gives the bye to the first player without a recorded bye,
  as a pairing of that player with themself. It then pairs the remaining rows 1-2,
  3-4, ... through a ROW_NUMBER self-join.
- **getRange.** This gives the window of pairings that is reshuffled around a
  conflicting position.
- **The rematch resolver loop of swissPairings.** Each pass splits the pairings into
  their left and right columns and records the rematch positions. It then shuffles
  the right column inside a window around each such position. Once the window factor
  exceeds the number of pairings, it shuffles all players together. It writes the
  columns back row by row. The factor grows by one per pass, and the loop stops after
  the first pass that finds no rematch. The bye, if any, is put in front of the result.

The database is data. A `Swiss.Tournament` holds three things:

- the standings rows, whose count is the number of registered players;
- every recorded match, whose count is the number of registered matches;
- the rows of the `pairings` view.

The bye query and the rematch query are counts over the match history.
`random.shuffle` is Python 2's Fisher–Yates loop driven by an injected stream of draws.
Every permutation comes from some stream, so a property proved for every stream holds
whichever permutation the shuffle picks.

Failures are values of `TournamentData.PairingError`:

- `RoundNotFinished`: the exception getPairingsWithBye raises for an incomplete round.
- `ResultNotIterable`: the even case with an incomplete round. `db_result` stays `0`
  and the loop over it fails.
- `DivisionByZero`: matches are recorded but there are no players, so `%` is taken by zero.
- `ByeUnassigned`: every player already had a bye, so `bye_pairing` is read before it
  is ever assigned.
- `NoRematchFreePairing`: the resolver used up its pass limit.

Where the written behaviour differs from the documented intent, the model follows the code:

- The standings query sorts ascending by wins (`ORDER BY wins,opponents_wins`). The
  "bottom" row, where the bye search starts, is therefore the player with the most
  wins, not the fewest.
- getRange enlarges a window clamped on the left by half of what it lost; that is what
  `width += -left` before `right = center+width/2` does. A window clamped on the right
  gets nothing back on the left. `Window.GetRangeExamples` shows both cases.

## Model

| member | source | states |
|---|---|---|
| TournamentData.CountWherePositive | tournament.py:220-224 | a `count(*) ... WHERE` query is positive exactly when some recorded match satisfies the filter |
| TournamentData.CountWhere | tournament.py:220-224 | a `count(*)` over the matches table never exceeds the number of recorded matches |
| TournamentData.ByeCount | tournament.py:220-226 | the bye query counts at most every match, and it is positive exactly when some match records the player as both winner and loser |
| TournamentData.RematchCount | tournament.py:326-335 | the rematch query counts at most every match, and it is positive exactly when some match has the two players as winner and loser, in either order |
| TournamentData.RematchSymmetric | tournament.py:326-330 | swapping the two sides of a pairing does not change whether it is a rematch |
| TournamentData.RosterColumns | tournament.py:319-324 | the players of a pairing list, with multiplicity, are exactly the contents of its left column plus its right column |
| Window.GetRange | tournament.py:253-261 | the window never starts before index 0 and never ends after `max_index` |
| Window.GetRangeClamps | tournament.py:253-261 | away from both ends the window is `width/2` either side of the centre; cut on the right only, it ends at `max_index` with its left edge unmoved; cut on the left, it starts at 0 and its right edge moves out by half the lost width, to `(width + width/2 + center)/2`, never short of the uncompensated edge |
| Window.GetRangeContainsCenter | tournament.py:253-261 | for a position inside the list and a width of at least 2, the half-open window holds the position |
| Window.GetRangeWidth | tournament.py:253-261 | the window is never wider than asked for; away from both ends an even width is met exactly; after a left clamp its size is `(width + width/2 + center)/2` |
| Window.GetRangeExamples | tournament.py:253-261 | at position 0 the window is compensated by one; at the last position it is cut and not compensated |
| RoundCheck.CheckRound | tournament.py:204 | the test raises a division by zero exactly when matches are recorded and the per-round count is 0 |
| RoundCheck.CheckRoundWholeRounds | tournament.py:290 | the check passes exactly when the recorded match count is a whole number of rounds |
| RoundCheck.MatchesPerRound | tournament.py:204 | the matches of a round are half the player count rounded up: P/2 for even P, (P+1)/2 for odd P, the bye counting as a match |
| Swiss.BasePairingsRoundCheck | tournament.py:289-297 | in both branches the base pairing fails in its round check exactly when the recorded matches are not a whole number of rounds of MatchesPerRound(P) matches |
| ByePairing.LastWithoutBye | tournament.py:212-226 | the search returns the largest index whose player has no bye, with every later row having one; it finds nothing exactly when every player had a bye |
| ByePairing.WithoutPlayer | tournament.py:233-237 | the `WHERE id != player_id` filter never lengthens the standings |
| ByePairing.WithoutPlayerCounts | tournament.py:233-237 | the filter keeps every other player with its multiplicity and drops every row with the excluded id |
| ByePairing.WithoutPlayerLength | tournament.py:233-237 | with unique ids, excluding the id of one row removes exactly one row |
| ByePairing.AdjacentPairs | tournament.py:233-239 | the ROW_NUMBER self-join yields half as many pairings as rows, rounded down |
| ByePairing.AdjacentPairsAt | tournament.py:238 | pairing k joins rows 2k+1 and 2k+2 (counting from 1) |
| ByePairing.WithoutAbsentPlayer | tournament.py:233-237 | filtering on an id that no row carries keeps every row in order |
| ByePairing.WithoutPlayerOrder | tournament.py:233-237 | with unique ids, excluding the id of row i leaves exactly the other rows, in standings order |
| ByePairing.AdjacentPairsRoster | tournament.py:233-239 | pairing an even number of rows places every row exactly once |
| ByePairing.ByeRoundOf | tournament.py:204-250 | the bye round fails only with a round-check error or, when the round is complete and every player had a bye, with the unassigned-bye error; a successful round pairs a standings player without a prior bye with themself |
| ByePairing.GetPairingsWithBye | tournament.py:200-250 | the method returns exactly the specification `ByePairing.ByeRoundOf`: round-check errors, the bye for the last row without one, the adjacent pairs of the rest, or the unassigned-bye error |
| ByePairing.PairsWithoutOnePlayer | tournament.py:228-239 | for an odd count with unique ids, the rows left after removing the bye player form (P-1)/2 pairings, and each of those players appears in exactly one of them |
| ByePairing.ByeRoundPlacesEveryPlayerOnce | tournament.py:204-250 | a successful bye round pairs a standings player without a prior bye with themself, puts every other player in exactly one pairing, and has (P+1)/2 pairings in all, the number the round check expects |
| ByePairing.ByeRoundKeepsStandingsOrder | tournament.py:233-239 | the pairings of a bye round follow the standings: with row i taking the bye, pairing k holds positions 2k and 2k+1 of the standings without row i |
| ByePairing.ExampleByeIndex | tournament.py:212-226 | with five players where the last row already had a bye, the search stops at the fourth row |
| ByePairing.ExampleRemainingPairs | tournament.py:233-239 | with the fourth player removed, rows 1-2 and 3-5 are paired |
| ByePairing.ByeSkipsPlayerWithBye | tournament.py:200-250 | the whole bye round for that example |
| Shuffling.Shuffle | tournament.py:351 | the shuffled list has the same length and the same elements with the same multiplicities |
| Resolver.Conflicts | tournament.py:319-339 | the recorded positions are at most one per pairing and each indexes a pairing of the list |
| Resolver.ConflictsAreRematches | tournament.py:319-339 | every recorded position indexes a rematch |
| Resolver.RematchesAreConflicts | tournament.py:319-339 | every rematch index is recorded |
| Resolver.ConflictsAscending | tournament.py:319-339 | the positions are recorded in strictly ascending order |
| Resolver.ConflictsExact | tournament.py:319-339 | the recorded positions are exactly the rematch indices, in ascending order |
| Resolver.ConflictFreeIffNoRematches | tournament.py:335-337 | a pass records no position exactly when the pairing list holds no rematch |
| Resolver.ScanPairings | tournament.py:319-339 | the scan builds the left column, the right column and the rematch positions of the list |
| Resolver.ShuffleWindows | tournament.py:346-352 | the local shuffles keep the right column's length and players and change no index outside the windows of the conflict positions |
| Resolver.SplitKeepsPlayers | tournament.py:360-361 | the two halves of the shuffled list together hold all of its players |
| Resolver.ShuffleAllPlayers | tournament.py:357-361 | the fallback shuffle keeps both column lengths and all players of the two columns |
| Resolver.WriteBack | tournament.py:363-366 | row i of the rebuilt list is (left[i], right[i]), so its columns and players are those of the two lists |
| Resolver.ResolvePass | tournament.py:306-367 | one pass records the rematch positions and keeps the list's length and players. Without a rematch it leaves the list as it is. Below the fallback it keeps the left column, keeps the right column's players, and leaves every pairing outside the shuffled windows alone |
| Resolver.ResolveRematches | tournament.py:300-367 | a returned list has no rematch, the same length and the same players as the input; a list with no rematch comes back unchanged; the only failure is running out of passes |
| Swiss.BasePairings | tournament.py:286-297 | an even count takes the rows of the `pairings` view as they are, with no bye, and can fail only in the round check; an odd count has a bye and fails only as getPairingsWithBye does |
| Swiss.SwissPairings | tournament.py:264-373 | the result has the bye row in front and then a rematch-free list with the base pairing's players, or the base pairing's own error, or the out-of-passes error; a base pairing without a rematch comes back unchanged; for an odd count with unique ids it has (P+1)/2 rows, a bye for a standings player without one, and every other player exactly once |

## Left out

- The database connection, cursors and SQL text are not modelled; the queries become
  functions over the data in `Swiss.Tournament`.
- The `pairings` view consulted for an even player count is not defined in this code, so
  its rows are an input (`pairingsView`) and nothing is assumed about them beyond what
  the resolver guarantees.
- `ROW_NUMBER() OVER ()` has no defined order in SQL; the model numbers the filtered rows
  in standings order.
- `countPlayersInTournament` is taken to be the number of standings rows, so the bye
  search cannot index past the end of the standings.
- Players are reduced to an id and a name that travel with it; `wins` and
  `opponents_wins` only fix the standings order, which is an input.
- Shuffling.Shuffle: states only that the result is a permutation, not which permutation
  or with what probability; the random generator is an injected stream of draws.
- Resolver.ResolveRematches: the Python loop has no bound and may run forever; the model
  stops after `maxPasses` passes with `NoRematchFreePairing`, and with `maxPasses == 0`
  it fails without trying.
- The progress `print` of the even branch and the closing of the connection are not
  modelled.
- Python's lenient slicing is not needed: every window lies inside the list.
- `left`, `right`, `temp` and `db_result` are Python lists updated in place; the model
  holds them as sequences that the methods reassign, so aliasing between them is not
  modelled.
