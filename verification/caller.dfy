/** The depth-based structural-variant caller: index construction, the copy-ratio filter, and the
    two-pass candidate search with reciprocal-overlap deduplication. */
module DepthBasedSVCaller {
  import opened Outcomes
  import opened Seqs
  import opened Intervals
  import opened IntervalTree
  import opened Evidence
  import opened BreakpointPairing

  /** The settings of the simple-variant discovery argument collection that the caller reads. */
  datatype Arguments = Arguments(
    minSvSize: int,
    maxCandidateEventReciprocalOverlap: real,
    breakpointIntervalPadding: int,
    evidenceLinkIntervalPadding: int,
    hmmPadding: int)

  /** A called large simple structural variant. The caller only inspects its interval; the
      evidence counts are filled in by the factory. */
  datatype LargeSimpleSV = LargeSimpleSV(interval: SVInterval, supportingEvidence: nat, counterEvidence: nat)

  /** The tandem-duplication factory (`LargeTandemDuplicationFactory.create`, `None` for a null
      result) and the event score at the configured counter-evidence pseudocount. */
  datatype EventFactory = EventFactory(
    create: (SVInterval, SVInterval, SVInterval, Option<IntrachromosomalBreakpointPair>, int) -> Option<LargeSimpleSV>,
    score: LargeSimpleSV -> real)

  /** One copy-ratio bin. */
  datatype CopyRatio = CopyRatio(interval: SimpleInterval, log2CopyRatio: real)

  /** The state the caller's constructor builds. `copyRatios` holds the bins behind the
      copy-ratio overlap detector. */
  datatype Caller = Caller(
    arguments: Arguments,
    ops: IntervalOps,
    tandemDuplicationFactory: EventFactory,
    copyRatios: seq<CopyRatio>,
    intrachromosomalLinkTree: Tree<EvidenceTargetLink>,
    interchromosomalLinkTree: Tree<EvidenceTargetLink>,
    contigTree: Tree<AlignedContig>,
    pairedBreakpoints: seq<IntrachromosomalBreakpointPair>)

  // ---------------------------------------------------------------------------------------------
  // Index construction

  /** `buildBreakpointTree`: one entry per pair, keyed by the pair's interval, in input order. */
  function BuildBreakpointTree(pairs: seq<IntrachromosomalBreakpointPair>): (r: Tree<IntrachromosomalBreakpointPair>)
    ensures Values(r) == pairs
    ensures forall i :: 0 <= i < |r| ==> r[i].key == r[i].value.Interval()
  {
    seq(|pairs|, i requires 0 <= i < |pairs| => Entry(pairs[i].Interval(), pairs[i]))
  }

  /** Some tree of the list has an entry overlapping the query. */
  function AnyTreeHasOverlapper<V>(trees: seq<Tree<V>>, query: SVInterval, overlaps: (SVInterval, SVInterval) -> bool): (r: bool)
    ensures r <==> exists t, i :: 0 <= t < |trees| && 0 <= i < |trees[t]| && overlaps(trees[t][i].key, query)
  {
    if trees == [] then false
    else if HasOverlapper(trees[0], query, overlaps) then true
    else
      var rest := AnyTreeHasOverlapper(trees[1..], query, overlaps);
      assert forall t :: 1 <= t < |trees| ==> trees[t] == trees[1..][t - 1];
      rest
  }

  /** The bin's interval, resolved against the dictionary and padded by `padding`. */
  function PaddedBin(ratio: CopyRatio, padding: int, ops: IntervalOps): SVInterval {
    ops.pad(ops.convert(ratio.interval), padding)
  }

  /** The filter of `getCopyRatioOverlapDetector`. */
  predicate BinNearEvidence(ratio: CopyRatio, breakpointTree: Tree<IntrachromosomalBreakpointPair>,
                            evidenceTrees: seq<Tree<EvidenceTargetLink>>, padding: int, ops: IntervalOps)
  {
    var padded := PaddedBin(ratio, padding, ops);
    HasOverlapper(breakpointTree, padded, ops.overlaps) || AnyTreeHasOverlapper(evidenceTrees, padded, ops.overlaps)
  }

  /** `getCopyRatioOverlapDetector`: the copy-ratio bins whose padded interval overlaps the
      interval of some breakpoint pair or some entry of an evidence tree, in their original order
      and with their original multiplicity. */
  function GetCopyRatioOverlapDetector(copyRatios: seq<CopyRatio>, breakpoints: seq<IntrachromosomalBreakpointPair>,
                                       evidenceTrees: seq<Tree<EvidenceTargetLink>>, padding: int, ops: IntervalOps)
    : (r: seq<CopyRatio>)
    ensures forall x :: x in r <==>
      && x in copyRatios
      && ((exists i :: 0 <= i < |breakpoints| && ops.overlaps(breakpoints[i].Interval(), PaddedBin(x, padding, ops)))
          || (exists t, j :: 0 <= t < |evidenceTrees| && 0 <= j < |evidenceTrees[t]|
                             && ops.overlaps(evidenceTrees[t][j].key, PaddedBin(x, padding, ops))))
    ensures Subsequence(r, copyRatios)
    ensures forall x :: x in r ==> multiset(r)[x] == multiset(copyRatios)[x]
  {
    var breakpointTree := BuildBreakpointTree(breakpoints);
    var r := Filter(copyRatios, (ratio: CopyRatio) => BinNearEvidence(ratio, breakpointTree, evidenceTrees, padding, ops));
    assert forall x :: HasOverlapper(breakpointTree, PaddedBin(x, padding, ops), ops.overlaps) <==>
      exists i :: 0 <= i < |breakpoints| && ops.overlaps(breakpoints[i].Interval(), PaddedBin(x, padding, ops)) by {
      forall x ensures HasOverlapper(breakpointTree, PaddedBin(x, padding, ops), ops.overlaps) <==>
        exists i :: 0 <= i < |breakpoints| && ops.overlaps(breakpoints[i].Interval(), PaddedBin(x, padding, ops)) {
        assert forall i :: 0 <= i < |breakpoints| ==> breakpointTree[i].key == breakpoints[i].Interval();
      }
    }
    r
  }

  /** The caller's constructor: classify the links, build the fused intrachromosomal tree and the
      separate-ends interchromosomal tree (both unpadded), pair the breakpoints, index the mapped
      assembled contigs and keep the copy-ratio bins near some evidence. It fails exactly when
      breakpoint pairing meets a mate mismatch. */
  function NewCaller(breakpoints: seq<BreakendRecord>, assembledContigs: seq<AlignedContig>,
                     evidenceTargetLinks: seq<EvidenceTargetLink>, copyRatios: seq<CopyRatio>,
                     dictionary: SequenceDictionary, arguments: Arguments, ops: IntervalOps, factory: EventFactory)
    : (r: Result<Caller, PairingError>)
    ensures r.Err? <==> GetIntrachromosomalBreakpointPairs(breakpoints, dictionary).Err?
    ensures r.Ok? ==> r.value.pairedBreakpoints == GetIntrachromosomalBreakpointPairs(breakpoints, dictionary).value
    ensures r.Ok? ==> Values(r.value.intrachromosomalLinkTree) == IntrachromosomalLinks(evidenceTargetLinks)
    ensures r.Ok? ==> |r.value.interchromosomalLinkTree| == 2 * |InterchromosomalLinks(evidenceTargetLinks)|
    ensures r.Ok? ==> forall i :: 0 <= i < |InterchromosomalLinks(evidenceTargetLinks)| ==>
      r.value.interchromosomalLinkTree[2 * i].value == InterchromosomalLinks(evidenceTargetLinks)[i] &&
      r.value.interchromosomalLinkTree[2 * i + 1].value == InterchromosomalLinks(evidenceTargetLinks)[i]
    ensures r.Ok? ==> Values(r.value.contigTree) == Filter(assembledContigs, IsMapped)
    ensures r.Ok? ==> Subsequence(r.value.copyRatios, copyRatios)
    ensures r.Ok? ==> r.value.arguments == arguments && r.value.ops == ops && r.value.tandemDuplicationFactory == factory
    ensures r.Ok? ==> r.value.intrachromosomalLinkTree == BuildEvidenceIntervalTree(IntrachromosomalLinks(evidenceTargetLinks), 0, false, ops)
    ensures r.Ok? ==> r.value.interchromosomalLinkTree == BuildEvidenceIntervalTree(InterchromosomalLinks(evidenceTargetLinks), 0, true, ops)
    ensures r.Ok? ==> r.value.contigTree == BuildReadIntervalTree(assembledContigs, dictionary)
    ensures r.Ok? ==>
      r.value.copyRatios == GetCopyRatioOverlapDetector(copyRatios, r.value.pairedBreakpoints,
        [r.value.intrachromosomalLinkTree, r.value.interchromosomalLinkTree], arguments.hmmPadding, ops)
  {
    var intrachromosomal := IntrachromosomalLinks(evidenceTargetLinks);
    var interchromosomal := InterchromosomalLinks(evidenceTargetLinks);
    var intraTree := BuildEvidenceIntervalTree(intrachromosomal, 0, false, ops);
    var interTree := BuildEvidenceIntervalTree(interchromosomal, 0, true, ops);
    IntrachromosomalLinksIdempotent(intrachromosomal);
    match GetIntrachromosomalBreakpointPairs(breakpoints, dictionary)
    case Err(e) => Err(e)
    case Ok(pairs) =>
      var contigTree := BuildReadIntervalTree(assembledContigs, dictionary);
      var bins := GetCopyRatioOverlapDetector(copyRatios, pairs, [intraTree, interTree], arguments.hmmPadding, ops);
      Ok(Caller(arguments, ops, factory, bins, intraTree, interTree, contigTree, pairs))
  }

  /** Classifying links that are all intrachromosomal keeps every one of them. */
  lemma IntrachromosomalLinksIdempotent(links: seq<EvidenceTargetLink>)
    requires forall i :: 0 <= i < |links| ==> IsIntrachromosomal(links[i])
    ensures IntrachromosomalLinks(links) == links
  {
    if links != [] {
      FilterCons(links, IsIntrachromosomal);
      IntrachromosomalLinksIdempotent(links[1..]);
      assert links == [links[0]] + links[1..];
    }
  }

  // ---------------------------------------------------------------------------------------------
  // Candidate search

  /** The arguments of one `getHighestScoringEventOnInterval` call. */
  datatype Candidate = Candidate(left: SVInterval, right: SVInterval, call: SVInterval,
                                 breakpoints: Option<IntrachromosomalBreakpointPair>, evidencePadding: int)

  /** The factory's answer for a candidate. */
  function Produce(factory: EventFactory, c: Candidate): Option<LargeSimpleSV> {
    factory.create(c.left, c.right, c.call, c.breakpoints, c.evidencePadding)
  }

  /** The candidate of a breakpoint pair: point intervals at its two positions, its own interval
      as the call interval, the pair itself as associated breakpoints, and the breakpoint padding. */
  function BreakpointCandidate(pair: IntrachromosomalBreakpointPair, arguments: Arguments): (c: Candidate)
    ensures c.call == pair.Interval()
    ensures c.left.contig == c.right.contig == c.call.contig
    ensures c.left.start == c.left.end == c.call.start
    ensures c.right.start == c.right.end == c.call.end
    ensures c.breakpoints == Some(pair)
    ensures c.evidencePadding == arguments.breakpointIntervalPadding
  {
    var interval := pair.Interval();
    Candidate(SVInterval(pair.contig, interval.start, interval.start),
              SVInterval(pair.contig, interval.end, interval.end),
              interval, Some(pair), arguments.breakpointIntervalPadding)
  }

  /** The candidate of an evidence link: its own two intervals, and a call interval on the left
      contig from the midpoint of the left interval to the midpoint of the right interval, each
      computed as a Java `int` `(start + end) / 2`. For well-formed ends whose sums fit in an
      `int`, each midpoint lies inside its interval. */
  function LinkCandidate(link: EvidenceTargetLink, arguments: Arguments): (c: Candidate)
    ensures c.left == link.left.interval && c.right == link.right.interval
    ensures c.call.contig == c.left.contig
    ensures c.call.start == Midpoint(c.left.start, c.left.end)
    ensures c.call.end == Midpoint(c.right.start, c.right.end)
    ensures 0 <= c.left.start <= c.left.end && c.left.start + c.left.end <= INT_MAX ==>
      c.left.start <= c.call.start <= c.left.end
    ensures 0 <= c.right.start <= c.right.end && c.right.start + c.right.end <= INT_MAX ==>
      c.right.start <= c.call.end <= c.right.end
    ensures c.breakpoints == None
    ensures c.evidencePadding == arguments.evidenceLinkIntervalPadding
  {
    var left := link.left.interval;
    var right := link.right.interval;
    var callInterval := SVInterval(left.contig, Midpoint(left.start, left.end), Midpoint(right.start, right.end));
    Candidate(left, right, callInterval, None, arguments.evidenceLinkIntervalPadding)
  }

  /** `getEventsOnInterval`: no event when the two intervals lie on different contigs or the call
      interval is shorter than the minimum SV size; otherwise the tandem duplication, if the
      factory makes one. */
  function EventsOnInterval(caller: Caller, c: Candidate): (r: seq<LargeSimpleSV>)
    ensures |r| <= 1
    ensures r != [] <==>
      && c.left.contig == c.right.contig
      && caller.ops.length(c.call) >= caller.arguments.minSvSize
      && Produce(caller.tandemDuplicationFactory, c).Some?
    ensures r != [] ==> r[0] == Produce(caller.tandemDuplicationFactory, c).value
  {
    if c.left.contig != c.right.contig then []
    else if caller.ops.length(c.call) < caller.arguments.minSvSize then []
    else
      match Produce(caller.tandemDuplicationFactory, c)
      case Some(tandemDuplication) => [tandemDuplication]
      case None => []
  }

  /** The index `Stream.max` picks: the first event of highest score. */
  function HighestScoringIndex(events: seq<LargeSimpleSV>, score: LargeSimpleSV -> real): (k: nat)
    requires |events| > 0
    ensures k < |events|
    ensures forall j :: 0 <= j < |events| ==> score(events[j]) <= score(events[k])
    ensures forall j :: 0 <= j < k ==> score(events[j]) < score(events[k])
    decreases |events|
  {
    if |events| == 1 then 0
    else
      var prefix := events[..|events| - 1];
      var k := HighestScoringIndex(prefix, score);
      assert forall j :: 0 <= j < |prefix| ==> prefix[j] == events[j];
      var last := |events| - 1;
      if score(events[k]) >= score(events[last]) then k else last
  }

  /** `candidateEvents.max(comparingDouble(score))`: empty for no events, otherwise an event of
      the list with the highest score, the earliest one on ties. */
  function HighestScoring(events: seq<LargeSimpleSV>, score: LargeSimpleSV -> real): (r: Option<LargeSimpleSV>)
    ensures r.None? <==> events == []
    ensures r.Some? ==> exists k :: 0 <= k < |events| && events[k] == r.value
                                    && (forall j :: 0 <= j < |events| ==> score(events[j]) <= score(r.value))
                                    && (forall j :: 0 <= j < k ==> score(events[j]) < score(r.value))
  {
    if events == [] then None
    else
      var k := HighestScoringIndex(events, score);
      Some(events[k])
  }

  /** `getHighestScoringEventOnInterval`: no event when the call interval reciprocally overlaps an
      accepted call at or above the configured maximum, when the intervals lie on different
      contigs or when the call is shorter than the minimum SV size; otherwise exactly the
      factory's event, if it makes one. */
  function HighestScoringEventOnInterval(caller: Caller, c: Candidate, accepted: Tree<LargeSimpleSV>): (r: Option<LargeSimpleSV>)
    ensures (exists i :: 0 <= i < |accepted| &&
               caller.ops.reciprocalOverlap(c.call, accepted[i].key) >= caller.arguments.maxCandidateEventReciprocalOverlap)
            ==> r.None?
    ensures c.left.contig != c.right.contig ==> r.None?
    ensures caller.ops.length(c.call) < caller.arguments.minSvSize ==> r.None?
    ensures r.Some? <==>
      && (forall i :: 0 <= i < |accepted| ==>
            caller.ops.reciprocalOverlap(c.call, accepted[i].key) < caller.arguments.maxCandidateEventReciprocalOverlap)
      && c.left.contig == c.right.contig
      && caller.ops.length(c.call) >= caller.arguments.minSvSize
      && Produce(caller.tandemDuplicationFactory, c).Some?
    ensures r.Some? ==> Produce(caller.tandemDuplicationFactory, c) == r
  {
    if HasReciprocalOverlapInTree(c.call, accepted, caller.ops.reciprocalOverlap,
                                  caller.arguments.maxCandidateEventReciprocalOverlap) then None
    else
      var events := EventsOnInterval(caller, c);
      var r := HighestScoring(events, caller.tandemDuplicationFactory.score);
      assert r.Some? ==> r.value == events[0];
      r
  }

  /** One iteration of either search loop: a candidate that clears the gate has its event
      inserted, keyed by the event's own interval; otherwise the tree is unchanged. The tree grows
      by at most that one call, the one the factory made for the candidate. */
  function Accept(caller: Caller, accepted: Tree<LargeSimpleSV>, c: Candidate): (r: Tree<LargeSimpleSV>)
    ensures |accepted| <= |r| <= |accepted| + 1
    ensures r[..|accepted|] == accepted
    ensures |r| > |accepted| <==> HighestScoringEventOnInterval(caller, c, accepted).Some?
    ensures HighestScoringEventOnInterval(caller, c, accepted).Some? ==>
      r[|accepted|].value == HighestScoringEventOnInterval(caller, c, accepted).value
    ensures |r| > |accepted| ==>
      r[|accepted|].key == r[|accepted|].value.interval &&
      Produce(caller.tandemDuplicationFactory, c) == Some(r[|accepted|].value)
  {
    match HighestScoringEventOnInterval(caller, c, accepted)
    case Some(event) => Put(accepted, event.interval, event)
    case None => accepted
  }

  /** A search loop over a sequence of candidates: it only appends to the accepted-call tree, at
      most one call per candidate, and a first candidate that clears the gate has its event
      appended right after the starting tree. `SearchSnoc` shows every later candidate is tried
      too. */
  function Search(caller: Caller, accepted: Tree<LargeSimpleSV>, candidates: seq<Candidate>): (r: Tree<LargeSimpleSV>)
    ensures |accepted| <= |r| <= |accepted| + |candidates|
    ensures r[..|accepted|] == accepted
    ensures candidates != [] && HighestScoringEventOnInterval(caller, candidates[0], accepted).Some? ==>
      |r| > |accepted| && r[|accepted|].value == HighestScoringEventOnInterval(caller, candidates[0], accepted).value
    decreases |candidates|
  {
    if candidates == [] then accepted
    else
      var next := Accept(caller, accepted, candidates[0]);
      var r := Search(caller, next, candidates[1..]);
      assert r[..|accepted|] == r[..|next|][..|accepted|];
      r
  }

  /** Each candidate is tried against the tree the earlier candidates left: searching through one
      more candidate is searching up to it and then accepting it. */
  lemma {:induction false} SearchSnoc(caller: Caller, accepted: Tree<LargeSimpleSV>, candidates: seq<Candidate>, c: Candidate)
    ensures Search(caller, accepted, candidates + [c]) == Accept(caller, Search(caller, accepted, candidates), c)
    decreases |candidates|
  {
    if candidates == [] {
      assert candidates + [c] == [c];
      assert [c][1..] == [];
    } else {
      var next := Accept(caller, accepted, candidates[0]);
      assert (candidates + [c])[0] == candidates[0];
      assert (candidates + [c])[1..] == candidates[1..] + [c];
      SearchSnoc(caller, next, candidates[1..], c);
    }
  }

  /** Every candidate is tried in turn: the `k`-th candidate adds a call exactly when its
      highest-scoring event clears the gate against the tree the earlier candidates built, and
      that event is the call added. */
  lemma SearchTriesEveryCandidate(caller: Caller, accepted: Tree<LargeSimpleSV>, candidates: seq<Candidate>, k: nat)
    requires k < |candidates|
    ensures Search(caller, accepted, candidates[..k + 1]) == Accept(caller, Search(caller, accepted, candidates[..k]), candidates[k])
    ensures var before := Search(caller, accepted, candidates[..k]);
      var after := Search(caller, accepted, candidates[..k + 1]);
      && (|after| > |before| <==> HighestScoringEventOnInterval(caller, candidates[k], before).Some?)
      && (|after| > |before| ==> after[|before|].value == HighestScoringEventOnInterval(caller, candidates[k], before).value)
  {
    assert candidates[..k + 1] == candidates[..k] + [candidates[k]];
    SearchSnoc(caller, accepted, candidates[..k], candidates[k]);
  }

  function BreakpointCandidates(caller: Caller): seq<Candidate> {
    seq(|caller.pairedBreakpoints|, i requires 0 <= i < |caller.pairedBreakpoints| =>
      BreakpointCandidate(caller.pairedBreakpoints[i], caller.arguments))
  }

  function LinkCandidates(caller: Caller): seq<Candidate> {
    seq(|caller.intrachromosomalLinkTree|, i requires 0 <= i < |caller.intrachromosomalLinkTree| =>
      LinkCandidate(caller.intrachromosomalLinkTree[i].value, caller.arguments))
  }

  /** The accepted-call tree after both passes: every breakpoint pair first, then every entry of
      the intrachromosomal link tree in iteration order. */
  function CalledEventTree(caller: Caller): Tree<LargeSimpleSV> {
    Search(caller, Search(caller, [], BreakpointCandidates(caller)), LinkCandidates(caller))
  }

  // ---------------------------------------------------------------------------------------------
  // Properties of the search

  /** Every accepted call is keyed by its own interval. */
  ghost predicate KeyedByOwnInterval(tree: Tree<LargeSimpleSV>) {
    forall i :: 0 <= i < |tree| ==> tree[i].key == tree[i].value.interval
  }

  /** No accepted call reciprocally overlaps an earlier one at or above the threshold. */
  ghost predicate NoReciprocalDuplicates(tree: Tree<LargeSimpleSV>, ops: IntervalOps, threshold: real) {
    forall i, j :: 0 <= i < j < |tree| ==> ops.reciprocalOverlap(tree[j].key, tree[i].key) < threshold
  }

  /** The factory's events always carry the call interval they were asked for. */
  ghost predicate FactoryKeepsCallInterval(factory: EventFactory) {
    forall l, r, call, bp, p :: factory.create(l, r, call, bp, p).Some? ==> factory.create(l, r, call, bp, p).value.interval == call
  }

  /** The dedup test looks at the candidate's call interval while the tree stores the event's own
      interval, so without `FactoryKeepsCallInterval` the guarantee is lost: a second candidate
      whose call interval clears the first event's interval, but whose own event does not, is
      accepted next to it. */
  lemma DedupNeedsFactoryToKeepCallInterval(caller: Caller, first: Candidate, second: Candidate)
    requires HighestScoringEventOnInterval(caller, first, []).Some?
    requires var e1 := HighestScoringEventOnInterval(caller, first, []).value;
      && caller.ops.reciprocalOverlap(second.call, e1.interval) < caller.arguments.maxCandidateEventReciprocalOverlap
      && second.left.contig == second.right.contig
      && caller.ops.length(second.call) >= caller.arguments.minSvSize
      && Produce(caller.tandemDuplicationFactory, second).Some?
      && caller.ops.reciprocalOverlap(Produce(caller.tandemDuplicationFactory, second).value.interval, e1.interval)
         >= caller.arguments.maxCandidateEventReciprocalOverlap
    ensures |Search(caller, [], [first, second])| == 2
    ensures !NoReciprocalDuplicates(Search(caller, [], [first, second]), caller.ops, caller.arguments.maxCandidateEventReciprocalOverlap)
  {
    var e1 := HighestScoringEventOnInterval(caller, first, []).value;
    var afterFirst := Accept(caller, [], first);
    assert afterFirst == [Entry(e1.interval, e1)];
    var e2 := Produce(caller.tandemDuplicationFactory, second).value;
    assert HighestScoringEventOnInterval(caller, second, afterFirst) == Some(e2);
    var afterSecond := Accept(caller, afterFirst, second);
    assert afterSecond == [Entry(e1.interval, e1), Entry(e2.interval, e2)];
    assert [first, second][1..] == [second] && [second][1..] == [];
    assert Search(caller, afterSecond, []) == afterSecond;
    assert Search(caller, afterFirst, [second]) == afterSecond;
    assert Search(caller, [], [first, second]) == afterSecond;
  }

  /** A concrete run where that happens: a factory that always answers with the same interval. */
  lemma ConstantIntervalFactoryDuplicates()
    ensures
      var ops := IntervalOps((a: SVInterval, b: SVInterval) => false,
                             (a: SVInterval, b: SVInterval) => if a == b then 1.0 else 0.0,
                             (a: SVInterval) => 1000,
                             (a: SVInterval, p: int) => a,
                             (s: SimpleInterval) => SVInterval(0, s.start, s.end));
      var factory := EventFactory((l: SVInterval, r: SVInterval, call: SVInterval, bp: Option<IntrachromosomalBreakpointPair>, p: int)
                                    => Some(LargeSimpleSV(SVInterval(0, 0, 100), 0, 0)),
                                  (e: LargeSimpleSV) => 0.0);
      var caller := Caller(Arguments(0, 0.5, 0, 0, 0), ops, factory, [], [], [], [], []);
      var point := SVInterval(0, 0, 0);
      var first := Candidate(point, point, SVInterval(0, 1, 50), None, 0);
      var second := Candidate(point, point, SVInterval(0, 2, 60), None, 0);
      !NoReciprocalDuplicates(Search(caller, [], [first, second]), ops, 0.5)
  {
    var ops := IntervalOps((a: SVInterval, b: SVInterval) => false,
                           (a: SVInterval, b: SVInterval) => if a == b then 1.0 else 0.0,
                           (a: SVInterval) => 1000,
                           (a: SVInterval, p: int) => a,
                           (s: SimpleInterval) => SVInterval(0, s.start, s.end));
    var factory := EventFactory((l: SVInterval, r: SVInterval, call: SVInterval, bp: Option<IntrachromosomalBreakpointPair>, p: int)
                                  => Some(LargeSimpleSV(SVInterval(0, 0, 100), 0, 0)),
                                (e: LargeSimpleSV) => 0.0);
    var caller := Caller(Arguments(0, 0.5, 0, 0, 0), ops, factory, [], [], [], [], []);
    var point := SVInterval(0, 0, 0);
    var first := Candidate(point, point, SVInterval(0, 1, 50), None, 0);
    var second := Candidate(point, point, SVInterval(0, 2, 60), None, 0);
    var event := LargeSimpleSV(SVInterval(0, 0, 100), 0, 0);
    assert Produce(factory, first) == Some(event) && Produce(factory, second) == Some(event);
    assert HighestScoringEventOnInterval(caller, first, []) == Some(event);
    DedupNeedsFactoryToKeepCallInterval(caller, first, second);
  }

  /** The event was made by the factory for one of the candidates. */
  ghost predicate MadeByOneOf(factory: EventFactory, candidates: seq<Candidate>, event: LargeSimpleSV) {
    exists n :: 0 <= n < |candidates| && Produce(factory, candidates[n]) == Some(event)
  }

  /** The entries from `from` on were each made by the factory for some candidate. */
  ghost predicate MadeFrom(tree: Tree<LargeSimpleSV>, from: nat, factory: EventFactory, candidates: seq<Candidate>) {
    forall k :: from <= k < |tree| ==> MadeByOneOf(factory, candidates, tree[k].value)
  }

  /** A call made for a later candidate was made for one of the candidates. */
  lemma MadeByLaterCandidate(factory: EventFactory, candidates: seq<Candidate>, event: LargeSimpleSV)
    requires candidates != []
    requires MadeByOneOf(factory, candidates[1..], event)
    ensures MadeByOneOf(factory, candidates, event)
  {
    var n :| 0 <= n < |candidates[1..]| && Produce(factory, candidates[1..][n]) == Some(event);
    assert candidates[n + 1] == candidates[1..][n];
  }

  /** One candidate's share of the search invariant: the tree stays keyed by the calls' own
      intervals, and when the factory keeps call intervals the new call does not reciprocally
      overlap any earlier one at the threshold. */
  lemma AcceptStep(caller: Caller, accepted: Tree<LargeSimpleSV>, c: Candidate)
    ensures var next := Accept(caller, accepted, c);
      && (KeyedByOwnInterval(accepted) ==> KeyedByOwnInterval(next))
      && (FactoryKeepsCallInterval(caller.tandemDuplicationFactory) && KeyedByOwnInterval(accepted)
          && NoReciprocalDuplicates(accepted, caller.ops, caller.arguments.maxCandidateEventReciprocalOverlap)
          ==> NoReciprocalDuplicates(next, caller.ops, caller.arguments.maxCandidateEventReciprocalOverlap))
  {
    var event := HighestScoringEventOnInterval(caller, c, accepted);
    if FactoryKeepsCallInterval(caller.tandemDuplicationFactory) && event.Some? {
      assert event.value.interval == c.call;
    }
  }

  /** Every call a search appends is keyed by its own interval, and when the factory keeps call
      intervals, no appended call reciprocally overlaps an earlier one at or above the threshold. */
  lemma {:induction false} SearchInvariant(caller: Caller, accepted: Tree<LargeSimpleSV>, candidates: seq<Candidate>)
    ensures var result := Search(caller, accepted, candidates);
      && (KeyedByOwnInterval(accepted) ==> KeyedByOwnInterval(result))
      && (FactoryKeepsCallInterval(caller.tandemDuplicationFactory) && KeyedByOwnInterval(accepted)
          && NoReciprocalDuplicates(accepted, caller.ops, caller.arguments.maxCandidateEventReciprocalOverlap)
          ==> NoReciprocalDuplicates(result, caller.ops, caller.arguments.maxCandidateEventReciprocalOverlap))
    decreases |candidates|
  {
    if candidates != [] {
      var next := Accept(caller, accepted, candidates[0]);
      AcceptStep(caller, accepted, candidates[0]);
      SearchInvariant(caller, next, candidates[1..]);
    }
  }

  /** Every call a search appends was made by the factory for one of the searched candidates. */
  lemma {:induction false} SearchProvenance(caller: Caller, accepted: Tree<LargeSimpleSV>, candidates: seq<Candidate>)
    ensures MadeFrom(Search(caller, accepted, candidates), |accepted|, caller.tandemDuplicationFactory, candidates)
    decreases |candidates|
  {
    if candidates != [] {
      var next := Accept(caller, accepted, candidates[0]);
      AcceptStep(caller, accepted, candidates[0]);
      SearchProvenance(caller, next, candidates[1..]);
      var result := Search(caller, next, candidates[1..]);
      forall k | |accepted| <= k < |result|
        ensures MadeByOneOf(caller.tandemDuplicationFactory, candidates, result[k].value)
      {
        if k < |next| {
          assert result[k] == result[..|next|][k] == next[k];
          assert Produce(caller.tandemDuplicationFactory, candidates[0]) == Some(result[k].value);
        } else {
          MadeByLaterCandidate(caller.tandemDuplicationFactory, candidates, result[k].value);
        }
      }
    }
  }

  /** Once a call is accepted, a later candidate whose call interval reciprocally overlaps it at
      or above the threshold is rejected: the first writer wins. */
  lemma FirstWriterWins(caller: Caller, accepted: Tree<LargeSimpleSV>, first: Candidate, second: Candidate)
    requires HighestScoringEventOnInterval(caller, first, accepted).Some?
    requires caller.ops.reciprocalOverlap(second.call, HighestScoringEventOnInterval(caller, first, accepted).value.interval)
             >= caller.arguments.maxCandidateEventReciprocalOverlap
    ensures Accept(caller, Accept(caller, accepted, first), second) == Accept(caller, accepted, first)
  {
    var next := Accept(caller, accepted, first);
    assert next[|accepted|].key == HighestScoringEventOnInterval(caller, first, accepted).value.interval;
  }

  /** The number of calls the breakpoint pass accepts. */
  ghost function BreakpointCallCount(caller: Caller): nat {
    |Search(caller, [], BreakpointCandidates(caller))|
  }

  /** The breakpoint-pair loop of `callEvents`: each pair, in order, is tried as a candidate
      against the calls accepted so far. */
  method SearchBreakpointPairs(caller: Caller) returns (calledEventTree: Tree<LargeSimpleSV>)
    ensures calledEventTree == Search(caller, [], BreakpointCandidates(caller))
  {
    calledEventTree := [];
    var pairs := caller.pairedBreakpoints;
    ghost var candidates := BreakpointCandidates(caller);
    var i := 0;
    while i < |pairs|
      invariant 0 <= i <= |pairs|
      invariant Search(caller, calledEventTree, candidates[i..]) == Search(caller, [], candidates)
    {
      var candidate := BreakpointCandidate(pairs[i], caller.arguments);
      assert candidates[i..][0] == candidate;
      assert candidates[i..][1..] == candidates[i + 1..];
      var event := HighestScoringEventOnInterval(caller, candidate, calledEventTree);
      if event.Some? {
        calledEventTree := Put(calledEventTree, event.value.interval, event.value);
      }
      i := i + 1;
    }
  }

  /** The evidence-link loop of `callEvents`: each entry of the intrachromosomal link tree, in
      iteration order, is tried as a candidate against the calls accepted so far. */
  method SearchLinks(caller: Caller, accepted: Tree<LargeSimpleSV>) returns (calledEventTree: Tree<LargeSimpleSV>)
    ensures calledEventTree == Search(caller, accepted, LinkCandidates(caller))
  {
    calledEventTree := accepted;
    var links := caller.intrachromosomalLinkTree;
    ghost var candidates := LinkCandidates(caller);
    var j := 0;
    while j < |links|
      invariant 0 <= j <= |links|
      invariant Search(caller, calledEventTree, candidates[j..]) == Search(caller, accepted, candidates)
    {
      var candidate := LinkCandidate(links[j].value, caller.arguments);
      assert candidates[j..][0] == candidate;
      assert candidates[j..][1..] == candidates[j + 1..];
      var event := HighestScoringEventOnInterval(caller, candidate, calledEventTree);
      if event.Some? {
        calledEventTree := Put(calledEventTree, event.value.interval, event.value);
      }
      j := j + 1;
    }
  }

  /** The calls after both passes, in acceptance order: the first `BreakpointCallCount` were made
      from breakpoint pairs, the rest from links. Whatever the order, every call was made for a
      breakpoint pair or a link. */
  lemma CalledEventsProvenance(caller: Caller)
    ensures var calls := Values(CalledEventTree(caller));
      && (forall e :: e in calls ==>
            MadeByOneOf(caller.tandemDuplicationFactory, BreakpointCandidates(caller), e) ||
            MadeByOneOf(caller.tandemDuplicationFactory, LinkCandidates(caller), e))
      && BreakpointCallCount(caller) <= |calls|
      && (forall k :: 0 <= k < BreakpointCallCount(caller) ==>
            MadeByOneOf(caller.tandemDuplicationFactory, BreakpointCandidates(caller), calls[k]))
      && (forall k :: BreakpointCallCount(caller) <= k < |calls| ==>
            MadeByOneOf(caller.tandemDuplicationFactory, LinkCandidates(caller), calls[k]))
  {
    var afterBreakpoints := Search(caller, [], BreakpointCandidates(caller));
    var tree := CalledEventTree(caller);
    SearchProvenance(caller, [], BreakpointCandidates(caller));
    SearchProvenance(caller, afterBreakpoints, LinkCandidates(caller));
    var calls := Values(tree);
    assert BreakpointCallCount(caller) == |afterBreakpoints| <= |calls|;
    forall k | 0 <= k < |afterBreakpoints|
      ensures MadeByOneOf(caller.tandemDuplicationFactory, BreakpointCandidates(caller), calls[k])
    {
      assert calls[k] == tree[k].value == tree[..|afterBreakpoints|][k].value == afterBreakpoints[k].value;
    }
    forall k | |afterBreakpoints| <= k < |calls|
      ensures MadeByOneOf(caller.tandemDuplicationFactory, LinkCandidates(caller), calls[k])
    {
      assert calls[k] == tree[k].value;
    }
  }

  /** When the factory keeps call intervals, no call after both passes reciprocally overlaps an
      earlier call at or above the configured maximum. */
  lemma CalledEventsDistinct(caller: Caller)
    ensures FactoryKeepsCallInterval(caller.tandemDuplicationFactory) ==>
      var calls := Values(CalledEventTree(caller));
      forall i, j :: 0 <= i < j < |calls| ==>
        caller.ops.reciprocalOverlap(calls[j].interval, calls[i].interval) < caller.arguments.maxCandidateEventReciprocalOverlap
  {
    var afterBreakpoints := Search(caller, [], BreakpointCandidates(caller));
    SearchInvariant(caller, [], BreakpointCandidates(caller));
    SearchInvariant(caller, afterBreakpoints, LinkCandidates(caller));
  }

  /** `callEvents`. The result is exactly the accepted-call tree's values after the breakpoint pass
      and then the link pass. Its first calls are made from breakpoint pairs and the rest from
      links, and when the factory keeps call intervals no call reciprocally overlaps an earlier
      call at or above the configured maximum. */
  method CallEvents(caller: Caller) returns (calls: seq<LargeSimpleSV>)
    ensures calls == Values(CalledEventTree(caller))
    ensures forall e :: e in calls ==>
      MadeByOneOf(caller.tandemDuplicationFactory, BreakpointCandidates(caller), e) ||
      MadeByOneOf(caller.tandemDuplicationFactory, LinkCandidates(caller), e)
    ensures BreakpointCallCount(caller) <= |calls|
    ensures forall k :: 0 <= k < BreakpointCallCount(caller) ==>
      MadeByOneOf(caller.tandemDuplicationFactory, BreakpointCandidates(caller), calls[k])
    ensures forall k :: BreakpointCallCount(caller) <= k < |calls| ==>
      MadeByOneOf(caller.tandemDuplicationFactory, LinkCandidates(caller), calls[k])
    ensures FactoryKeepsCallInterval(caller.tandemDuplicationFactory) ==>
      forall i, j :: 0 <= i < j < |calls| ==>
        caller.ops.reciprocalOverlap(calls[j].interval, calls[i].interval) < caller.arguments.maxCandidateEventReciprocalOverlap
  {
    var afterBreakpoints := SearchBreakpointPairs(caller);
    var calledEventTree := SearchLinks(caller, afterBreakpoints);
    calls := Values(calledEventTree);
    CalledEventsProvenance(caller);
    CalledEventsDistinct(caller);
  }
}
