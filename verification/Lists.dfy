/** Lists without repetition. */
module Lists {
  ghost predicate Distinct<A>(list: seq<A>) {
    forall i, j :: 0 <= i < j < |list| ==> list[i] != list[j]
  }

  /** The elements of a list without repetition are as many as its positions. */
  lemma {:induction false} DistinctSize<A>(list: seq<A>, keys: set<A>)
    requires Distinct(list) && forall a :: a in keys <==> a in list
    ensures |keys| == |list|
  {
    if list == [] {
      assert keys == {};
    } else {
      DistinctSize(list[..|list| - 1], keys - {list[|list| - 1]});
    }
  }
}
