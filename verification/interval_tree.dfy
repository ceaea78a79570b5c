/** The interval index (GATK's SVIntervalTree), modelled as its sequence of entries. */
module IntervalTree {
  import opened Intervals

  /** One key/value pair of the index. */
  datatype Entry<V> = Entry(key: SVInterval, value: V)

  /** The entries of an index, in the order the model iterates them (insertion order). */
  type Tree<V> = seq<Entry<V>>

  /** `SVIntervalTree.put`: the new entry becomes the last one. */
  function Put<V>(tree: Tree<V>, key: SVInterval, value: V): (r: Tree<V>)
    ensures |r| == |tree| + 1
    ensures r[..|tree|] == tree
    ensures r[|tree|] == Entry(key, value)
  {
    tree + [Entry(key, value)]
  }

  /** The values of the index in iteration order. */
  function Values<V>(tree: Tree<V>): (r: seq<V>)
    ensures |r| == |tree|
    ensures forall i :: 0 <= i < |tree| ==> r[i] == tree[i].value
  {
    seq(|tree|, i requires 0 <= i < |tree| => tree[i].value)
  }

  /** `SVIntervalTree.hasOverlapper`: some entry's key overlaps the query. */
  function HasOverlapper<V>(tree: Tree<V>, query: SVInterval, overlaps: (SVInterval, SVInterval) -> bool): (r: bool)
    ensures r <==> exists i :: 0 <= i < |tree| && overlaps(tree[i].key, query)
  {
    if tree == [] then false
    else if overlaps(tree[0].key, query) then true
    else
      var rest := HasOverlapper(tree[1..], query, overlaps);
      assert forall i :: 1 <= i < |tree| ==> tree[i] == tree[1..][i - 1];
      rest
  }

  /** `IntervalUtils.hasReciprocalOverlapInTree`: some entry's key has a reciprocal-overlap
      fraction with the query of at least `minFraction`. Every key is compared; the library
      visits only overlapping keys, which is the same answer whenever `fraction` is 0 for
      intervals that do not overlap and `minFraction` is positive. */
  function HasReciprocalOverlapInTree<V>(query: SVInterval, tree: Tree<V>,
                                         fraction: (SVInterval, SVInterval) -> real, minFraction: real): (r: bool)
    ensures r <==> exists i :: 0 <= i < |tree| && fraction(query, tree[i].key) >= minFraction
  {
    if tree == [] then false
    else if fraction(query, tree[0].key) >= minFraction then true
    else
      var rest := HasReciprocalOverlapInTree(query, tree[1..], fraction, minFraction);
      assert forall i :: 1 <= i < |tree| ==> tree[i] == tree[1..][i - 1];
      rest
  }
}
