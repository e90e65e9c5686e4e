/** Facts about sequences shared by the deck, the hand and the selection:
    "no element occurs twice", stated on positions and on multisets. */
module SeqFacts {

  /** No two positions of `s` hold equal elements. */
  predicate NoDuplicates<T(==)>(s: seq<T>)
  {
    forall i, j :: 0 <= i < j < |s| ==> s[i] != s[j]
  }

  /** A sequence has no duplicates exactly when every element occurs at most
      once in its multiset. */
  lemma {:induction false} NoDuplicatesMultiset<T>(s: seq<T>)
    ensures NoDuplicates(s) <==> forall x :: multiset(s)[x] <= 1
  {
    if s == [] {
    } else {
      var rest := s[1..];
      assert s == [s[0]] + rest;
      NoDuplicatesMultiset(rest);
      if NoDuplicates(s) {
        assert NoDuplicates(rest) by {
          forall i, j | 0 <= i < j < |rest| ensures rest[i] != rest[j] {
            assert rest[i] == s[i + 1] && rest[j] == s[j + 1];
          }
        }
        assert s[0] !in rest;
        forall x ensures multiset(s)[x] <= 1 {
          assert multiset(s)[x] == multiset{s[0]}[x] + multiset(rest)[x];
        }
      } else {
        var i, j :| 0 <= i < j < |s| && s[i] == s[j];
        if i == 0 {
          assert s[j] in rest by { assert rest[j - 1] == s[j]; }
          assert multiset(s)[s[0]] == 1 + multiset(rest)[s[0]];
        } else {
          assert rest[i - 1] == rest[j - 1];
          assert !NoDuplicates(rest);
          var x :| multiset(rest)[x] > 1;
          assert multiset(s)[x] == multiset{s[0]}[x] + multiset(rest)[x];
        }
      }
    }
  }

  /** Rearranging a sequence keeps it free of duplicates. */
  lemma PermutationKeepsNoDuplicates<T>(s: seq<T>, t: seq<T>)
    requires multiset(s) == multiset(t)
    requires NoDuplicates(s)
    ensures NoDuplicates(t)
  {
    NoDuplicatesMultiset(s);
    NoDuplicatesMultiset(t);
  }

  /** The parts with `sep` between each two neighbours. */
  function Join<T>(sep: seq<T>, parts: seq<seq<T>>): seq<T>
  {
    if |parts| == 0 then []
    else if |parts| == 1 then parts[0]
    else parts[0] + sep + Join(sep, parts[1..])
  }
}
