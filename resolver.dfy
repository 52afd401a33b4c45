/**
 * The rematch resolver of swissPairings. Each pass splits the pairing list into its
 * left and right columns and records the positions of rematches; if there are any,
 * it shuffles the right column inside a window around each of them, falls back to
 * shuffling every player once the window factor exceeds the number of pairings, and
 * writes the columns back row by row. The factor grows by one per pass, and the
 * passes stop after one that finds no rematch.
 */
module Resolver {
  import opened TournamentData
  import opened Window
  import opened Shuffling

  /** `positions` as the scan builds it: the index of each rematch, appended in order. */
  function Conflicts(h: History, db: seq<Pairing>): (r: seq<nat>)
    ensures |r| <= |db|
    ensures forall k :: 0 <= k < |r| ==> r[k] < |db|
    decreases |db|
  {
    if db == [] then []
    else Conflicts(h, db[..|db| - 1]) + (if IsRematch(h, db[|db| - 1]) then [|db| - 1] else [])
  }

  /** Every recorded position is the index of a rematch. */
  lemma {:induction false} ConflictsAreRematches(h: History, db: seq<Pairing>)
    ensures forall k :: 0 <= k < |Conflicts(h, db)| ==>
              Conflicts(h, db)[k] < |db| && IsRematch(h, db[Conflicts(h, db)[k]])
    decreases |db|
  {
    if db != [] {
      var init := db[..|db| - 1];
      ConflictsAreRematches(h, init);
      var c := Conflicts(h, init);
      forall k | 0 <= k < |c| ensures c[k] < |db| && IsRematch(h, db[c[k]]) {
        assert db[c[k]] == init[c[k]];
      }
    }
  }

  /** Every rematch index is recorded. */
  lemma {:induction false} RematchesAreConflicts(h: History, db: seq<Pairing>)
    ensures forall i :: 0 <= i < |db| && IsRematch(h, db[i]) ==> i in Conflicts(h, db)
    decreases |db|
  {
    if db != [] {
      var init := db[..|db| - 1];
      RematchesAreConflicts(h, init);
      forall i | 0 <= i < |init| && IsRematch(h, db[i]) ensures i in Conflicts(h, db) {
        assert db[i] == init[i];
        assert i in Conflicts(h, init);
      }
    }
  }

  /** The positions are recorded in ascending order. */
  lemma {:induction false} ConflictsAscending(h: History, db: seq<Pairing>)
    ensures forall k, l :: 0 <= k < l < |Conflicts(h, db)| ==> Conflicts(h, db)[k] < Conflicts(h, db)[l]
    decreases |db|
  {
    if db != [] {
      var init := db[..|db| - 1];
      ConflictsAscending(h, init);
      ConflictsAreRematches(h, init);
    }
  }

  /** The recorded positions are exactly the rematch indices, in ascending order. */
  lemma ConflictsExact(h: History, db: seq<Pairing>)
    ensures forall k :: 0 <= k < |Conflicts(h, db)| ==>
              Conflicts(h, db)[k] < |db| && IsRematch(h, db[Conflicts(h, db)[k]])
    ensures forall i :: 0 <= i < |db| && IsRematch(h, db[i]) ==> i in Conflicts(h, db)
    ensures forall k, l :: 0 <= k < l < |Conflicts(h, db)| ==> Conflicts(h, db)[k] < Conflicts(h, db)[l]
  {
    ConflictsAreRematches(h, db);
    RematchesAreConflicts(h, db);
    ConflictsAscending(h, db);
  }

  /** A pass finds no position to repair exactly when the list holds no rematch. */
  lemma ConflictFreeIffNoRematches(h: History, db: seq<Pairing>)
    ensures Conflicts(h, db) == [] <==> NoRematches(h, db)
  {
    ConflictsExact(h, db);
  }

  /** The scan of one pass: the two columns and the positions of the rematches. */
  method ScanPairings(h: History, db: seq<Pairing>) returns (left: seq<Player>, right: seq<Player>, positions: seq<nat>)
    ensures left == Lefts(db) && right == Rights(db)
    ensures positions == Conflicts(h, db)
  {
    left, right, positions := [], [], [];
    var index := 0;
    while index < |db|
      invariant 0 <= index <= |db|
      invariant left == Lefts(db[..index]) && right == Rights(db[..index])
      invariant positions == Conflicts(h, db[..index])
    {
      var row := db[index];
      assert db[..index + 1][..index] == db[..index];
      left := left + [row.first];
      right := right + [row.second];
      if RematchCount(h, row.first.id, row.second.id) > 0 {
        positions := positions + [index];
      }
      index := index + 1;
    }
    assert db[..|db|] == db;
  }

  /** Position i lies in the window reshuffled for one of the given conflict positions. */
  predicate Touched(i: int, positions: seq<nat>, width: int, n: int)
    decreases |positions|
  {
    && |positions| > 0
    && var w := GetRange(positions[|positions| - 1], width, n);
       (w.left <= i < w.right || Touched(i, positions[..|positions| - 1], width, n))
  }

  /**
   * The local shuffles of one pass, for the rematch positions the scan found: the
   * window of each one, as getRange gives it, is replaced by a shuffled copy of itself.
   */
  method ShuffleWindows(right: seq<Player>, positions: seq<nat>, width: int, rand: RandomStream, drawn: nat)
    returns (right': seq<Player>, drawn': nat)
    requires width >= 2
    requires forall k :: 0 <= k < |positions| ==> positions[k] < |right|
    ensures |right'| == |right| && multiset(right') == multiset(right)
    ensures forall i :: 0 <= i < |right| && !Touched(i, positions, width, |right|) ==> right'[i] == right[i]
    ensures drawn' >= drawn
  {
    var n := |right|;
    right', drawn' := right, drawn;
    var k := 0;
    while k < |positions|
      invariant 0 <= k <= |positions|
      invariant |right'| == n && multiset(right') == multiset(right)
      invariant forall i :: 0 <= i < n && !Touched(i, positions[..k], width, n) ==> right'[i] == right[i]
      invariant drawn' >= drawn
    {
      var ran := GetRange(positions[k], width, n);
      GetRangeContainsCenter(positions[k], width, n);
      assert positions[..k + 1][..k] == positions[..k];
      var temp := right'[ran.left..ran.right];
      temp, drawn' := Shuffle(temp, rand, drawn');
      assert right' == right'[..ran.left] + right'[ran.left..ran.right] + right'[ran.right..];
      right' := right'[..ran.left] + temp + right'[ran.right..];
      k := k + 1;
    }
    assert positions[..|positions|] == positions;
  }

  lemma SplitKeepsPlayers(playerList: seq<Player>, n: nat)
    requires n <= |playerList|
    ensures multiset(playerList[..n]) + multiset(playerList[n..]) == multiset(playerList)
  {
    assert playerList == playerList[..n] + playerList[n..];
  }

  /**
   * The fallback once the window factor exceeds the number of pairings: every player
   * is shuffled in one list, and its two halves become the new columns.
   */
  method ShuffleAllPlayers(left: seq<Player>, right: seq<Player>, rand: RandomStream, drawn: nat)
    returns (left': seq<Player>, right': seq<Player>, drawn': nat)
    requires |left| == |right|
    ensures |left'| == |left| && |right'| == |right|
    ensures multiset(left') + multiset(right') == multiset(left) + multiset(right)
    ensures drawn' >= drawn
  {
    var n := |left|;
    var playerList := left + right;
    playerList, drawn' := Shuffle(playerList, rand, drawn);
    SplitKeepsPlayers(playerList, n);
    left', right' := playerList[..n], playerList[n..];
  }

  /** Rebuilding the list by index: row i becomes (left[i], right[i]). */
  method WriteBack(db: seq<Pairing>, left: seq<Player>, right: seq<Player>) returns (db': seq<Pairing>)
    requires |left| == |db| && |right| == |db|
    ensures |db'| == |db| && Lefts(db') == left && Rights(db') == right
    ensures forall i :: 0 <= i < |db| ==> db'[i] == Pairing(left[i], right[i])
    ensures Roster(db') == multiset(left) + multiset(right)
  {
    db' := db;
    var index := 0;
    while index < |db'|
      invariant 0 <= index <= |db| && |db'| == |db|
      invariant forall i :: 0 <= i < index ==> db'[i] == Pairing(left[i], right[i])
    {
      db' := db'[index := Pairing(left[index], right[index])];
      index := index + 1;
    }
    assert Lefts(db') == left && Rights(db') == right;
    RosterColumns(db');
  }

  /** One pass of the `while loop_canary` loop. */
  method ResolvePass(h: History, db: seq<Pairing>, rangeFactor: nat, rand: RandomStream, drawn: nat)
    returns (db': seq<Pairing>, positions: seq<nat>, drawn': nat)
    requires rangeFactor >= 1
    ensures positions == Conflicts(h, db)
    ensures positions == [] ==> db' == db
    ensures |db'| == |db| && Roster(db') == Roster(db)
    ensures rangeFactor <= |db| ==> Lefts(db') == Lefts(db) && multiset(Rights(db')) == multiset(Rights(db))
    ensures rangeFactor <= |db| ==>
              forall i :: 0 <= i < |db| && !Touched(i, positions, rangeFactor * 2, |db|) ==> db'[i] == db[i]
    ensures drawn' >= drawn
  {
    var left, right;
    left, right, positions := ScanPairings(h, db);
    db', drawn' := db, drawn;
    var n := |db|;
    if |positions| > 0 {
      assert multiset(left) + multiset(right) == Roster(db) by {
        RosterColumns(db);
      }
      ConflictsAreRematches(h, db);
      right, drawn' := ShuffleWindows(right, positions, rangeFactor * 2, rand, drawn');
      if rangeFactor > n {
        left, right, drawn' := ShuffleAllPlayers(left, right, rand, drawn');
      }
      db' := WriteBack(db, left, right);
    }
  }

  /**
   * The `while loop_canary` loop, cut off after maxPasses passes. A returned list has
   * no rematch, the same length and the same players; a list that has no rematch to
   * begin with comes back unchanged.
   */
  method ResolveRematches(h: History, db: seq<Pairing>, rand: RandomStream, drawn: nat, maxPasses: nat)
    returns (r: Result<seq<Pairing>>, drawn': nat)
    ensures r.Ok? ==> NoRematches(h, r.value) && |r.value| == |db| && Roster(r.value) == Roster(db)
    ensures r.Err? ==> r.error == NoRematchFreePairing
    ensures maxPasses > 0 && NoRematches(h, db) ==> r == Ok(db)
  {
    var current := db;
    drawn' := drawn;
    var loopCanary := true;
    var rangeFactor := 1;
    var passes := 0;
    ConflictFreeIffNoRematches(h, db);
    while loopCanary && passes < maxPasses
      invariant passes <= maxPasses && rangeFactor == passes + 1
      invariant |current| == |db| && Roster(current) == Roster(db)
      invariant !loopCanary ==> Conflicts(h, current) == []
      invariant passes == 0 ==> loopCanary
      invariant Conflicts(h, db) == [] ==> current == db && (passes > 0 ==> !loopCanary)
      decreases maxPasses - passes
    {
      var positions;
      current, positions, drawn' := ResolvePass(h, current, rangeFactor, rand, drawn');
      loopCanary := |positions| > 0;
      rangeFactor := rangeFactor + 1;
      passes := passes + 1;
    }
    if loopCanary {
      r := Err(NoRematchFreePairing);
    } else {
      ConflictFreeIffNoRematches(h, current);
      r := Ok(current);
    }
  }
}
