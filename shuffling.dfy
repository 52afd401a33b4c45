/**
 * random.shuffle, with the process-wide random generator replaced by an injected
 * stream of draws: `rand(k)` is the k-th number drawn, and `drawn` counts the draws
 * used so far. Every permutation arises from some stream, so a property proved for
 * every stream holds whichever permutation the shuffle picks.
 */
module Shuffling {

  type RandomStream = nat -> nat

  /** Python 2's shuffle: for i from the last index down to 1, swap x[i] with x[j] for a j in [0, i]. */
  method Shuffle<T>(s: seq<T>, rand: RandomStream, drawn: nat) returns (t: seq<T>, drawn': nat)
    ensures |t| == |s| && multiset(t) == multiset(s)
    ensures drawn' >= drawn
  {
    t, drawn' := s, drawn;
    var i := |s| - 1;
    while i > 0
      invariant |t| == |s| && multiset(t) == multiset(s)
      invariant i < |s|
      invariant drawn' >= drawn
    {
      var j := rand(drawn') % (i + 1);
      drawn' := drawn' + 1;
      t := t[i := t[j]][j := t[i]];
      i := i - 1;
    }
  }
}
