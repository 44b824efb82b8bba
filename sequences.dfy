/** Facts about sequences used by several models: reversal and distinctness. */
module Sequences {

  /** No element occurs twice. */
  ghost predicate Distinct<T>(s: seq<T>)
  {
    forall i, j | 0 <= i < j < |s| :: s[i] != s[j]
  }

  /** The elements of `s` in the opposite order (what Python's `list.reverse()` leaves behind). */
  function Reversed<T>(s: seq<T>): seq<T>
  {
    if s == [] then [] else [s[|s| - 1]] + Reversed(s[..|s| - 1])
  }

  /** Element `k` of the reversal is element `|s| - 1 - k` of the original. */
  lemma {:induction false} ReversedAt<T>(s: seq<T>)
    ensures |Reversed(s)| == |s|
    ensures forall k | 0 <= k < |s| :: Reversed(s)[k] == s[|s| - 1 - k]
  {
    if s != [] {
      ReversedAt(s[..|s| - 1]);
    }
  }

  /** Reversing twice gives the original sequence back. */
  lemma ReversedReversed<T>(s: seq<T>)
    ensures Reversed(Reversed(s)) == s
  {
    ReversedAt(s);
    ReversedAt(Reversed(s));
  }

  /** Reversal keeps the multiset of elements. */
  lemma ReversedMultiset<T>(s: seq<T>)
    ensures multiset(Reversed(s)) == multiset(s)
  {
    if s != [] {
      ReversedMultiset(s[..|s| - 1]);
      assert s == s[..|s| - 1] + [s[|s| - 1]];
    }
  }

  /** Putting an element in front of `s` puts it at the back of the reversal. */
  lemma ReversedCons<T>(x: T, s: seq<T>)
    ensures Reversed([x] + s) == Reversed(s) + [x]
  {
    ReversedAt([x] + s);
    ReversedAt(s);
  }

  /** Distinctness holds exactly when no element has multiplicity above one. */
  lemma {:induction false} DistinctMultiplicity<T>(s: seq<T>)
    ensures Distinct(s) <==> forall x :: multiset(s)[x] <= 1
  {
    if s != [] {
      var t := s[1..];
      assert s == [s[0]] + t;
      DistinctMultiplicity(t);
      if Distinct(s) {
        assert Distinct(t) by {
          forall i, j | 0 <= i < j < |t| ensures t[i] != t[j] {
            assert t[i] == s[i + 1] && t[j] == s[j + 1];
          }
        }
      } else {
        var i, j :| 0 <= i < j < |s| && s[i] == s[j];
        if i == 0 {
          assert s[j] in t;
          assert multiset(s)[s[0]] == 1 + multiset(t)[s[0]];
        } else {
          assert t[i - 1] == t[j - 1];
          assert !Distinct(t);
          var x :| multiset(t)[x] > 1;
          assert multiset(s)[x] == multiset([s[0]])[x] + multiset(t)[x];
        }
      }
    }
  }

  /** A rearrangement of a sequence without repetitions has no repetitions either. */
  lemma DistinctPermutation<T>(s: seq<T>, t: seq<T>)
    requires multiset(s) == multiset(t) && Distinct(s)
    ensures Distinct(t)
  {
    DistinctMultiplicity(s);
    DistinctMultiplicity(t);
  }
}
