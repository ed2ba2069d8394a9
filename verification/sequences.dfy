/** Small facts about sequences that the pool and the iterators share. */
module Sequences {

  /** No element occurs twice. */
  ghost predicate Distinct<X>(s: seq<X>) {
    forall i, j | 0 <= i < j < |s| :: s[i] != s[j]
  }

  /** The set of elements of a sequence. */
  ghost function Elements<X>(s: seq<X>): set<X> {
    set x | x in s
  }

  /** Every slice of a sequence without repetitions is without repetitions. */
  lemma DistinctSlice<X>(s: seq<X>, lo: nat, hi: nat)
    requires Distinct(s) && lo <= hi <= |s|
    ensures Distinct(s[lo..hi])
  {
  }

  /** A sequence without repetitions has as many elements as its set. */
  lemma {:induction false} DistinctCardinality<X>(s: seq<X>)
    requires Distinct(s)
    ensures |Elements(s)| == |s|
  {
    if s != [] {
      var tail := s[1..];
      DistinctSlice(s, 1, |s|);
      DistinctCardinality(tail);
      assert s[0] !in Elements(tail) by {
        forall k | 0 <= k < |tail|
          ensures tail[k] != s[0]
        {
          assert tail[k] == s[k + 1];
        }
      }
      assert Elements(s) == {s[0]} + Elements(tail) by {
        assert s == [s[0]] + tail;
      }
    }
  }
}
