/** Index sets of sequences, used to count the elements that satisfy a predicate. */
module Seqs {

  /** The positions of s whose element satisfies P. */
  ghost function IndicesWhere<T>(s: seq<T>, P: T -> bool): set<nat>
  {
    set i: nat | i < |s| && P(s[i])
  }

  lemma IndicesWhereEmpty<T>(P: T -> bool)
    ensures IndicesWhere([], P) == {}
  {
  }

  /** Appending one element adds its position exactly when it satisfies P. */
  lemma IndicesWhereSnoc<T>(s: seq<T>, x: T, P: T -> bool)
    ensures IndicesWhere(s + [x], P) == IndicesWhere(s, P) + (if P(x) then {|s|} else {})
    ensures |s| !in IndicesWhere(s, P)
  {
    var t := s + [x];
    assert forall i: nat | i < |s| :: t[i] == s[i];
    assert t[|s|] == x;
  }
}
