/** Sequence facts shared by the graph, ranking and community modules. */
module Seqs {

  /** No element occurs twice: node lists and dictionary keys. */
  predicate Distinct<T(==)>(s: seq<T>) {
    forall i, j :: 0 <= i < j < |s| ==> s[i] != s[j]
  }

  /** The elements of a sequence, as Python's `set(list)`. */
  function Elems<T(==)>(s: seq<T>): set<T> {
    set x | x in s
  }

  lemma {:induction false} ElemsCard<T>(s: seq<T>)
    ensures |Elems(s)| <= |s|
  {
    if s != [] {
      var init := s[..|s| - 1];
      ElemsCard(init);
      assert Elems(s) == Elems(init) + {s[|s| - 1]};
    }
  }

  lemma {:induction false} DistinctElemsCard<T>(s: seq<T>)
    requires Distinct(s)
    ensures |Elems(s)| == |s|
  {
    if s != [] {
      var init := s[..|s| - 1];
      DistinctElemsCard(init);
      assert Elems(s) == Elems(init) + {s[|s| - 1]};
      assert s[|s| - 1] !in Elems(init);
    }
  }

  lemma SubsetCard<T>(a: set<T>, b: set<T>)
    requires a <= b
    ensures |a| <= |b|
  {
    assert b == a + (b - a);
  }
}
