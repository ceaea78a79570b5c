/** Genomic intervals, the sequence dictionary, the interval utilities the caller relies on, and
    the Java `int` arithmetic used to compute call positions. */
module Intervals {

  /** A named-contig interval (GATK's SimpleInterval): traversal intervals and copy-ratio bins. */
  datatype SimpleInterval = SimpleInterval(contig: string, start: int, end: int)

  /** An interval whose contig is an index into the sequence dictionary (GATK's SVInterval). */
  datatype SVInterval = SVInterval(contig: int, start: int, end: int)

  /** The sequence dictionary, reduced to the contig-name to contig-index resolution it provides. */
  type SequenceDictionary = map<string, nat>

  /** `SAMSequenceDictionary.getSequenceIndex`: the contig's index, or -1 for an unknown name. */
  function SequenceIndex(dictionary: SequenceDictionary, name: string): (r: int)
    ensures r >= 0 <==> name in dictionary
    ensures name in dictionary ==> r == dictionary[name]
  {
    if name in dictionary then dictionary[name] else -1
  }

  /** The interval operations of `SVInterval` and `IntervalUtils` that this model treats as given.
      `overlaps` is the tree's overlap test, `reciprocalOverlap` the reciprocal-overlap fraction,
      `length` is `SVInterval.getLength`, `pad` is `IntervalUtils.getPaddedInterval` for the run's
      dictionary and `convert` is `IntervalUtils.convertInterval` for the run's dictionary. */
  datatype IntervalOps = IntervalOps(
    overlaps: (SVInterval, SVInterval) -> bool,
    reciprocalOverlap: (SVInterval, SVInterval) -> real,
    length: SVInterval -> int,
    pad: (SVInterval, int) -> SVInterval,
    convert: SimpleInterval -> SVInterval)

  const INT_MIN: int := -0x8000_0000
  const INT_MAX: int := 0x7fff_ffff

  predicate IsInt32(x: int) {
    INT_MIN <= x <= INT_MAX
  }

  /** Two's-complement wrap-around of a Java `int` addition result. */
  function WrapInt32(x: int): (r: int)
    ensures IsInt32(r)
    ensures (r - x) % 0x1_0000_0000 == 0
    ensures IsInt32(x) ==> r == x
  {
    (x - INT_MIN) % 0x1_0000_0000 + INT_MIN
  }

  /** Java `x / 2` on an `int`: division truncating toward zero. */
  function JavaHalf(x: int): (r: int)
    ensures x >= 0 ==> 2 * r <= x <= 2 * r + 1
    ensures x < 0 ==> 2 * r - 1 <= x <= 2 * r
  {
    if x >= 0 then x / 2 else -((-x) / 2)
  }

  /** Java `(a + b) / 2` on `int` operands: a 32-bit sum, then truncating division. The result is
      an `int`; when the sum fits it is half the sum, rounded toward zero. */
  function Midpoint(a: int, b: int): (r: int)
    ensures IsInt32(r)
    ensures IsInt32(a + b) && a + b >= 0 ==> 2 * r <= a + b <= 2 * r + 1
    ensures IsInt32(a + b) && a + b < 0 ==> 2 * r - 1 <= a + b <= 2 * r
  {
    JavaHalf(WrapInt32(a + b))
  }

  /** The midpoint of the ends of a well-formed interval lies inside it, as long as the sum of
      the ends does not overflow a Java `int`. */
  lemma MidpointWithin(a: int, b: int)
    requires 0 <= a <= b
    requires a + b <= INT_MAX
    ensures a <= Midpoint(a, b) <= b
  {
  }

  /** The sum of two positions overflows once it passes `INT_MAX`: the midpoint of
      `[2^30, 2^30]` comes out negative. */
  lemma MidpointOverflow()
    ensures Midpoint(0x4000_0000, 0x4000_0000) == -0x4000_0000
  {
    assert WrapInt32(0x8000_0000) == INT_MIN;
  }
}
