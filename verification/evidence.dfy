/** Evidence target links and assembled contigs, their classification, and the interval indices
    built from them. */
module Evidence {
  import opened Seqs
  import opened Intervals
  import opened IntervalTree

  /** An interval with the strand of the reads supporting it. */
  datatype StrandedInterval = StrandedInterval(interval: SVInterval, strand: bool)

  /** Aggregated split-read / discordant-pair evidence joining two stranded intervals. */
  datatype EvidenceTargetLink = EvidenceTargetLink(left: StrandedInterval, right: StrandedInterval)

  /** An assembled contig's alignment record, reduced to the fields the read index uses. */
  datatype AlignedContig = AlignedContig(name: string, contig: string, start: int, end: int, unmapped: bool)

  predicate IsIntrachromosomal(link: EvidenceTargetLink) {
    link.left.interval.contig == link.right.interval.contig
  }

  predicate IsInterchromosomal(link: EvidenceTargetLink) {
    link.left.interval.contig != link.right.interval.contig
  }

  predicate IsMapped(read: AlignedContig) {
    !read.unmapped
  }

  /** `getIntrachromosomalLinks`: the links whose two ends lie on the same contig, in input order. */
  function IntrachromosomalLinks(links: seq<EvidenceTargetLink>): (r: seq<EvidenceTargetLink>)
    ensures forall l :: l in r <==> l in links && IsIntrachromosomal(l)
    ensures Subsequence(r, links)
  {
    Filter(links, IsIntrachromosomal)
  }

  /** `getInterchromosomalLinks`: the links whose two ends lie on different contigs, in input order. */
  function InterchromosomalLinks(links: seq<EvidenceTargetLink>): (r: seq<EvidenceTargetLink>)
    ensures forall l :: l in r <==> l in links && IsInterchromosomal(l)
    ensures Subsequence(r, links)
  {
    Filter(links, IsInterchromosomal)
  }

  /** Every link lands in exactly one of the two lists, as often as it occurs in the input, and
      each list keeps the input order when the input is split anywhere. */
  lemma ClassifyLinksPartition(links: seq<EvidenceTargetLink>)
    ensures |IntrachromosomalLinks(links)| + |InterchromosomalLinks(links)| == |links|
    ensures multiset(IntrachromosomalLinks(links)) + multiset(InterchromosomalLinks(links)) == multiset(links)
    ensures forall l :: l in links ==> (l in IntrachromosomalLinks(links) <==> l !in InterchromosomalLinks(links))
  {
    FilterComplement(links, IsIntrachromosomal, IsInterchromosomal);
  }

  /** Classifying a concatenation classifies each part: order within each list follows the input. */
  lemma ClassifyLinksConcat(a: seq<EvidenceTargetLink>, b: seq<EvidenceTargetLink>)
    ensures IntrachromosomalLinks(a + b) == IntrachromosomalLinks(a) + IntrachromosomalLinks(b)
    ensures InterchromosomalLinks(a + b) == InterchromosomalLinks(a) + InterchromosomalLinks(b)
  {
    FilterConcat(a, b, IsIntrachromosomal);
    FilterConcat(a, b, IsInterchromosomal);
  }

  /** The single call-region interval of a same-contig link: left start to right end. */
  function FusedInterval(link: EvidenceTargetLink): SVInterval {
    SVInterval(link.left.interval.contig, link.left.interval.start, link.right.interval.end)
  }

  /** `buildEvidenceIntervalTree`. With `separateLeftRightIntervals` every link contributes its
      padded left and padded right interval, in that order; otherwise every same-contig link
      contributes its padded fused interval and every other link is dropped. */
  function BuildEvidenceIntervalTree(links: seq<EvidenceTargetLink>, padding: int,
                                     separateLeftRightIntervals: bool, ops: IntervalOps): (r: Tree<EvidenceTargetLink>)
    ensures separateLeftRightIntervals ==> |r| == 2 * |links|
    ensures separateLeftRightIntervals ==>
      forall i :: 0 <= i < |links| ==>
        r[2 * i] == Entry(ops.pad(links[i].left.interval, padding), links[i]) &&
        r[2 * i + 1] == Entry(ops.pad(links[i].right.interval, padding), links[i])
    ensures !separateLeftRightIntervals ==> Values(r) == IntrachromosomalLinks(links)
    ensures !separateLeftRightIntervals ==>
      forall i :: 0 <= i < |r| ==> r[i].key == ops.pad(FusedInterval(r[i].value), padding)
  {
    if separateLeftRightIntervals then SeparateEntries(links, padding, ops)
    else FusedEntries(links, padding, ops)
  }

  /** The entries of the separate-left-right mode. */
  function SeparateEntries(links: seq<EvidenceTargetLink>, padding: int, ops: IntervalOps): (r: Tree<EvidenceTargetLink>)
    ensures |r| == 2 * |links|
    ensures forall i :: 0 <= i < |links| ==>
      r[2 * i] == Entry(ops.pad(links[i].left.interval, padding), links[i]) &&
      r[2 * i + 1] == Entry(ops.pad(links[i].right.interval, padding), links[i])
  {
    if links == [] then []
    else
      var link := links[0];
      var rest := SeparateEntries(links[1..], padding, ops);
      var pair := [Entry(ops.pad(link.left.interval, padding), link), Entry(ops.pad(link.right.interval, padding), link)];
      SeparateEntriesShift(pair, rest, links);
      pair + rest
  }

  /** Prepending the first link's two entries moves every later link's entries up by two. */
  lemma SeparateEntriesShift<V>(pair: seq<V>, rest: seq<V>, links: seq<EvidenceTargetLink>)
    requires |pair| == 2 && |rest| == 2 * (|links| - 1) && links != []
    ensures forall i {:trigger links[i]} :: 1 <= i < |links| ==>
      (pair + rest)[2 * i] == rest[2 * (i - 1)] && (pair + rest)[2 * i + 1] == rest[2 * (i - 1) + 1]
  {
  }

  /** The entries of the fused mode, one per same-contig link in order. */
  function FusedEntries(links: seq<EvidenceTargetLink>, padding: int, ops: IntervalOps): (r: Tree<EvidenceTargetLink>)
    ensures Values(r) == IntrachromosomalLinks(links)
    ensures forall i :: 0 <= i < |r| ==> r[i].key == ops.pad(FusedInterval(r[i].value), padding)
  {
    var kept := IntrachromosomalLinks(links);
    seq(|kept|, i requires 0 <= i < |kept| => Entry(ops.pad(FusedInterval(kept[i]), padding), kept[i]))
  }

  /** `buildReadIntervalTree`: one entry per mapped contig alignment, in order, keyed by its span
      on the dictionary index of its contig; unmapped alignments are skipped. */
  function BuildReadIntervalTree(contigs: seq<AlignedContig>, dictionary: SequenceDictionary): (r: Tree<AlignedContig>)
    ensures Values(r) == Filter(contigs, IsMapped)
    ensures forall i :: 0 <= i < |r| ==>
      r[i].key == SVInterval(SequenceIndex(dictionary, r[i].value.contig), r[i].value.start, r[i].value.end)
  {
    var mapped := Filter(contigs, IsMapped);
    seq(|mapped|, i requires 0 <= i < |mapped| =>
      Entry(SVInterval(SequenceIndex(dictionary, mapped[i].contig), mapped[i].start, mapped[i].end), mapped[i]))
  }
}
