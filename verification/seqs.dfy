/** Sequence utilities: order-preserving filtering, subsequences and flattening. */
module Seqs {

  /** True iff `a` can be obtained from `b` by deleting elements (greedy left-to-right matching). */
  predicate Subsequence<T(==)>(a: seq<T>, b: seq<T>)
    decreases |b|
  {
    if a == [] then true
    else if b == [] then false
    else if a[0] == b[0] then Subsequence(a[1..], b[1..])
    else Subsequence(a, b[1..])
  }

  /** The elements of `s` that satisfy `p`, in their original order (a Java `stream().filter(p)`). */
  function Filter<T(==,!new)>(s: seq<T>, p: T -> bool): (r: seq<T>)
    ensures |r| <= |s|
    ensures forall i :: 0 <= i < |r| ==> p(r[i])
    ensures forall x :: x in r <==> x in s && p(x)
    ensures forall x :: multiset(r)[x] == if p(x) then multiset(s)[x] else 0
    ensures Subsequence(r, s)
  {
    if s == [] then []
    else
      var rest := Filter(s[1..], p);
      assert s == [s[0]] + s[1..];
      if p(s[0]) then
        assert ([s[0]] + rest)[1..] == rest;
        [s[0]] + rest
      else
        assert rest != [] ==> rest[0] != s[0];
        rest
  }

  /** One step of filtering: the head is kept exactly when it satisfies the predicate. */
  lemma FilterCons<T(!new)>(s: seq<T>, p: T -> bool)
    requires s != []
    ensures Filter(s, p) == (if p(s[0]) then [s[0]] else []) + Filter(s[1..], p)
  {
  }

  /** Filtering distributes over concatenation: the relative order of kept elements never changes. */
  lemma {:induction false} FilterConcat<T(!new)>(a: seq<T>, b: seq<T>, p: T -> bool)
    ensures Filter(a + b, p) == Filter(a, p) + Filter(b, p)
    decreases |a|
  {
    if a == [] {
      assert a + b == b;
    } else {
      assert (a + b)[0] == a[0];
      assert (a + b)[1..] == a[1..] + b;
      FilterConcat(a[1..], b, p);
    }
  }

  /** Filtering by a predicate and by its negation splits a sequence into two parts that together
      hold every element exactly as often as the original. */
  lemma FilterComplement<T(!new)>(s: seq<T>, p: T -> bool, q: T -> bool)
    requires forall x :: q(x) == !p(x)
    ensures |Filter(s, p)| + |Filter(s, q)| == |s|
    ensures multiset(Filter(s, p)) + multiset(Filter(s, q)) == multiset(s)
  {
    var a, b := Filter(s, p), Filter(s, q);
    assert multiset(a) + multiset(b) == multiset(s) by {
      forall x
        ensures (multiset(a) + multiset(b))[x] == multiset(s)[x]
      {
      }
    }
    assert |multiset(a) + multiset(b)| == |multiset(s)|;
  }

  /** Concatenation of all inner sequences, in order. */
  function Flatten<T>(ss: seq<seq<T>>): seq<T>
  {
    if ss == [] then [] else ss[0] + Flatten(ss[1..])
  }

  /** Flattening a suffix peels off its first inner sequence. */
  lemma FlattenSuffix<T>(ss: seq<seq<T>>, i: nat)
    requires i < |ss|
    ensures Flatten(ss[i..]) == ss[i] + Flatten(ss[i + 1..])
  {
    assert ss[i..][1..] == ss[i + 1..];
  }

  lemma FlattenOfThree<T>(x: seq<T>, y: seq<T>, z: seq<T>)
    ensures Flatten([x, y, z]) == x + y + z
  {
    var ss := [x, y, z];
    assert ss[1..] == [y, z] && ss[1..][1..] == [z] && ss[1..][1..][1..] == [];
    assert Flatten([z]) == z;
    assert Flatten([y, z]) == y + z;
  }

  /** Regrouping step for reads moved across a boundary: the moved head is re-associated with
      what precedes it. */
  lemma JoinShifted<T>(first: seq<T>, head: seq<T>, tail: seq<T>, rest: seq<T>,
                       shiftedFirst: seq<T>, shiftedRest: seq<T>, originalRest: seq<T>)
    requires shiftedFirst == first + head
    requires shiftedRest == tail + rest
    requires originalRest == head + tail + rest
    ensures shiftedFirst + shiftedRest == first + originalRest
  {
  }
}
