# GATK depth-based SV calling and Spark read-source decisions, in Dafny

This project models two pieces of GATK (the Genome Analysis Toolkit).

The first is the core of `DepthBasedSVCaller`, which calls large structural variants (tandem
duplications). It:

- sorts evidence target links into intrachromosomal and interchromosomal links;
- pairs breakend (BND) VCF records by their `MATEID` attribute into intrachromosomal breakpoint pairs;
- builds the evidence, breakpoint and assembled-contig interval indices;
- keeps only the copy-ratio bins near some evidence;
- runs the two-pass candidate search of `callEvents`. Breakpoint pairs go first, then evidence links, and every candidate is checked against the growing tree of accepted calls with a reciprocal-overlap test.

The second is three pure decisions of `ReadsSparkSource`:

- the fallback interval filter `samRecordOverlaps`;
- the CRAM reference check `checkCramReference`;
- the `putPairsInSamePartition` regrouping, which moves each partition's leading read-name group of a queryname-sorted file to the previous partition.

Modules, one per file:

| file | module | contents |
|---|---|---|
| `outcomes.dfy` | `Outcomes` | `Option`, `Result`, `Outcome` |
| `seqs.dfy` | `Seqs` | order-preserving `Filter` and `Subsequence`, `Flatten`, with their lemmas |
| `intervals.dfy` | `Intervals` | `SimpleInterval`, `SVInterval`, the sequence dictionary, the interval operations treated as given (`IntervalOps`), Java `int` midpoint arithmetic |
| `interval_tree.dfy` | `IntervalTree` | `SVIntervalTree` as a sequence of entries in iteration order, `hasOverlapper`, `hasReciprocalOverlapInTree` |
| `evidence.dfy` | `Evidence` | evidence links, assembled contigs, link classification, the link and read indices |
| `breakpoints.dfy` | `BreakpointPairing` | breakend records, the one-pass `MATEID` pairing |
| `caller.dfy` | `DepthBasedSVCaller` | the constructor, the copy-ratio filter, candidates, `getEventsOnInterval`, `getHighestScoringEventOnInterval`, `callEvents` |
| `reads_spark_source.dfy` | `ReadsSparkSource` | `samRecordOverlaps`, `checkCramReference`, `putPairsInSamePartition` |

Collaborators whose code is not part of this model become parameters:

- The interval utilities (`SVInterval.overlaps`, the reciprocal-overlap fraction, `getLength`, `IntervalUtils.getPaddedInterval`, `IntervalUtils.convertInterval`) are the function fields of `IntervalOps`.
- The tandem-duplication factory and the event score are the fields of `EventFactory`.
- `IOUtils.isCramFileName`, `ReferenceTwoBitSource.isTwoBit` and `SparkUtils.pathExists` are the fields of `FileSystem`.
- The sequence dictionary is a `map<string, nat>`. An unknown name resolves to -1, as `getSequenceIndex` does.

`SVIntervalTree` is a sequence of `(key, value)` entries in insertion order. "## Left out" says what this changes against the real tree, which iterates in key order.

The link-pass call interval is `[(l.start + l.end) / 2, (r.start + r.end) / 2]` computed in Java `int` arithmetic. The addition wraps at 32 bits and the division truncates toward zero (`Intervals.Midpoint`). Fatal exceptions become `Err`/`Fail` values. This includes the `first()` on an empty RDD and the `next()` on an empty partition in `putPairsInSamePartition`.

Three behaviours of the breakpoint pairing are easy to miss in the code:

- The Javadoc of `getIntrachromosomalBreakpointPairs` (DepthBasedSVCaller.java:120) says "Returns paired breakpoints on the same chromosome", and the result class is `IntrachromosomalBreakpointPair`. Yet the pairing never compares the two records' contigs. The pair takes the contig of the record read second. See `BreakpointPairing.MatesOnDifferentContigsArePaired`.
- A mate mismatch is detected only when the mismatching record finds its claimed mate already parked. Take A naming B as its mate and B naming C. Pairing fails when B comes before A. When A comes first it succeeds with both records parked and no pair. See `BreakpointPairing.MismatchDetectionDependsOnOrder`.
- The orientation test is a strict `<`. So equal positions give start == end, with the parked record first. The model promises `start <= end`.

Conversely, the pass is complete on well-behaved input. Suppose no two records share an ID, and every MATEID that names a record is answered by that record. Then the pass never fails and emits the pair of every mutually mated couple (`BreakpointPairing.MutualMatesArePaired`).

## Model

| member | source | states |
|---|---|---|
| Evidence.IntrachromosomalLinks | src/main/java/org/broadinstitute/hellbender/tools/spark/sv/discovery/DepthBasedSVCaller.java:106-109 | a link is kept iff its left and right contig indices are equal; the result is an order-preserving subsequence of the input |
| Evidence.InterchromosomalLinks | src/main/java/org/broadinstitute/hellbender/tools/spark/sv/discovery/DepthBasedSVCaller.java:114-117 | a link is kept iff its contig indices differ; the result is an order-preserving subsequence of the input |
| Evidence.ClassifyLinksPartition | src/main/java/org/broadinstitute/hellbender/tools/spark/sv/discovery/DepthBasedSVCaller.java:106-117 | every link lands in exactly one of the two lists: the lengths add up to the input's, the multisets add up to the input's, and no link is in both |
| Evidence.ClassifyLinksConcat | src/main/java/org/broadinstitute/hellbender/tools/spark/sv/discovery/DepthBasedSVCaller.java:106-117 | classifying a concatenation classifies each part and concatenates the results, so each list keeps input order |
| Evidence.BuildEvidenceIntervalTree | src/main/java/org/broadinstitute/hellbender/tools/spark/sv/discovery/DepthBasedSVCaller.java:193-212 | with separate ends, entries 2i and 2i+1 are link i's padded left and right intervals, both mapping to link i; otherwise the values are exactly the same-contig links in order, each keyed by its padded left-start-to-right-end span |
| Evidence.SeparateEntries | src/main/java/org/broadinstitute/hellbender/tools/spark/sv/discovery/DepthBasedSVCaller.java:198-204 | two entries per link, left then right, both mapping to the link |
| Evidence.FusedEntries | src/main/java/org/broadinstitute/hellbender/tools/spark/sv/discovery/DepthBasedSVCaller.java:205-209 | one entry per same-contig link, keyed by its padded fused span; different-contig links are dropped |
| Evidence.BuildReadIntervalTree | src/main/java/org/broadinstitute/hellbender/tools/spark/sv/discovery/DepthBasedSVCaller.java:173-183 | the values are exactly the mapped contigs in order, each keyed by its span on the dictionary index of its contig |
| IntervalTree.HasOverlapper | src/main/java/org/broadinstitute/hellbender/tools/spark/sv/discovery/DepthBasedSVCaller.java:89 | true iff some entry's key overlaps the query |
| IntervalTree.HasReciprocalOverlapInTree | src/main/java/org/broadinstitute/hellbender/tools/spark/sv/discovery/DepthBasedSVCaller.java:226 | true iff some entry's key has a reciprocal-overlap fraction with the query at or above the threshold |
| DepthBasedSVCaller.BuildBreakpointTree | src/main/java/org/broadinstitute/hellbender/tools/spark/sv/discovery/DepthBasedSVCaller.java:94-100 | one entry per pair in input order, keyed by the pair's interval |
| DepthBasedSVCaller.AnyTreeHasOverlapper | src/main/java/org/broadinstitute/hellbender/tools/spark/sv/discovery/DepthBasedSVCaller.java:89 | true iff some entry of some tree in the list overlaps the query |
| DepthBasedSVCaller.GetCopyRatioOverlapDetector | src/main/java/org/broadinstitute/hellbender/tools/spark/sv/discovery/DepthBasedSVCaller.java:79-92 | a bin is kept iff its padded converted interval overlaps some breakpoint pair's interval or some evidence-tree key; kept bins keep their order and multiplicity, dropped bins vanish |
| DepthBasedSVCaller.NewCaller | src/main/java/org/broadinstitute/hellbender/tools/spark/sv/discovery/DepthBasedSVCaller.java:62-76 | construction fails exactly when pairing fails; otherwise the intrachromosomal tree holds exactly the same-contig links, the interchromosomal tree holds each different-contig link at entries 2i and 2i+1, the contig tree holds exactly the mapped contigs; both link trees are unpadded; the kept bins are exactly the bins whose HMM-padded interval is near a breakpoint pair or either link tree; and the caller keeps the given arguments, interval operations and factory |
| DepthBasedSVCaller.IntrachromosomalLinksIdempotent | src/main/java/org/broadinstitute/hellbender/tools/spark/sv/discovery/DepthBasedSVCaller.java:62-64 | re-classifying the intrachromosomal list when building its tree drops nothing |
| DepthBasedSVCaller.BreakpointCandidate | src/main/java/org/broadinstitute/hellbender/tools/spark/sv/discovery/DepthBasedSVCaller.java:240-246 | a breakpoint pair is tried with point intervals at its start and end, its own interval as call interval, itself as associated breakpoints, and the breakpoint padding |
| DepthBasedSVCaller.LinkCandidate | src/main/java/org/broadinstitute/hellbender/tools/spark/sv/discovery/DepthBasedSVCaller.java:255-264 | a link is tried with its own intervals, a call interval on the left contig from the Java-int midpoint of the left interval to that of the right interval, no breakpoints and the link padding; without overflow each midpoint lies inside its interval |
| Intervals.Midpoint | src/main/java/org/broadinstitute/hellbender/tools/spark/sv/discovery/DepthBasedSVCaller.java:258-259 | the result is always a Java int; when the sum fits, it is half the sum rounded toward zero |
| Intervals.MidpointWithin | src/main/java/org/broadinstitute/hellbender/tools/spark/sv/discovery/DepthBasedSVCaller.java:258-259 | for 0 <= start <= end with a sum that fits in an int, the computed midpoint lies in [start, end] |
| Intervals.MidpointOverflow | src/main/java/org/broadinstitute/hellbender/tools/spark/sv/discovery/DepthBasedSVCaller.java:258-259 | for ends of 2^30 the int sum wraps and the midpoint is -2^30 |
| DepthBasedSVCaller.EventsOnInterval | src/main/java/org/broadinstitute/hellbender/tools/spark/sv/discovery/DepthBasedSVCaller.java:281-297 | at most one event, present iff the contigs agree, the call is at least the minimum SV size, and the factory makes one; it is the factory's event |
| DepthBasedSVCaller.HighestScoringIndex | src/main/java/org/broadinstitute/hellbender/tools/spark/sv/discovery/DepthBasedSVCaller.java:228 | the index of an event whose score is at least every other score and strictly above every earlier score (the first maximum) |
| DepthBasedSVCaller.HighestScoring | src/main/java/org/broadinstitute/hellbender/tools/spark/sv/discovery/DepthBasedSVCaller.java:228 | empty iff there are no events; otherwise a first-maximum-score event of the list |
| DepthBasedSVCaller.HighestScoringEventOnInterval | src/main/java/org/broadinstitute/hellbender/tools/spark/sv/discovery/DepthBasedSVCaller.java:225-229 | no event if the call interval reciprocally overlaps an accepted call at or above the maximum, if the contigs differ, or if the call is too short; otherwise, and only then, the factory's event if it makes one |
| DepthBasedSVCaller.Accept | src/main/java/org/broadinstitute/hellbender/tools/spark/sv/discovery/DepthBasedSVCaller.java:246-249 | one iteration appends a call exactly when the candidate's highest-scoring event clears the reciprocal-overlap gate, and then appends that very event, keyed by its own interval; otherwise the tree is unchanged; earlier calls are never revised |
| DepthBasedSVCaller.Search | src/main/java/org/broadinstitute/hellbender/tools/spark/sv/discovery/DepthBasedSVCaller.java:240-250 | a whole loop keeps the starting tree as a prefix and appends at most one call per candidate; when the first candidate's event clears the gate, that event is the first call appended |
| DepthBasedSVCaller.SearchSnoc | src/main/java/org/broadinstitute/hellbender/tools/spark/sv/discovery/DepthBasedSVCaller.java:240-268 | every candidate is tried in turn: searching through one more candidate is searching up to it and then running one acceptance step on it against the tree built so far |
| DepthBasedSVCaller.SearchTriesEveryCandidate | src/main/java/org/broadinstitute/hellbender/tools/spark/sv/discovery/DepthBasedSVCaller.java:240-268 | the k-th candidate adds a call exactly when its highest-scoring event clears the gate against the tree the first k candidates built, and that event is the call added |
| DepthBasedSVCaller.AcceptStep | src/main/java/org/broadinstitute/hellbender/tools/spark/sv/discovery/DepthBasedSVCaller.java:246-249 | one iteration keeps the tree keyed by the events' own intervals and, when the factory keeps call intervals, free of reciprocal duplicates |
| DepthBasedSVCaller.SearchInvariant | src/main/java/org/broadinstitute/hellbender/tools/spark/sv/discovery/DepthBasedSVCaller.java:237-268 | keys stay the events' own intervals; with an interval-keeping factory no appended call reciprocally overlaps an earlier one at the threshold |
| DepthBasedSVCaller.SearchProvenance | src/main/java/org/broadinstitute/hellbender/tools/spark/sv/discovery/DepthBasedSVCaller.java:240-268 | every call a search appends was made by the factory for one of the searched candidates |
| DepthBasedSVCaller.FirstWriterWins | src/main/java/org/broadinstitute/hellbender/tools/spark/sv/discovery/DepthBasedSVCaller.java:226-248 | once a call is accepted, a later candidate whose call interval reciprocally overlaps it at the threshold changes nothing |
| DepthBasedSVCaller.DedupNeedsFactoryToKeepCallInterval | src/main/java/org/broadinstitute/hellbender/tools/spark/sv/discovery/DepthBasedSVCaller.java:226-266 | because the test uses the call interval and the tree the event's interval, a factory that moves intervals can get two reciprocally overlapping calls accepted |
| DepthBasedSVCaller.ConstantIntervalFactoryDuplicates | src/main/java/org/broadinstitute/hellbender/tools/spark/sv/discovery/DepthBasedSVCaller.java:226-266 | a concrete run with a constant-interval factory whose result contains a reciprocal duplicate |
| DepthBasedSVCaller.SearchBreakpointPairs | src/main/java/org/broadinstitute/hellbender/tools/spark/sv/discovery/DepthBasedSVCaller.java:240-250 | the breakpoint loop computes the search over all pairs in order, starting from an empty tree |
| DepthBasedSVCaller.SearchLinks | src/main/java/org/broadinstitute/hellbender/tools/spark/sv/discovery/DepthBasedSVCaller.java:253-268 | the link loop computes the search over the intrachromosomal tree's entries in iteration order, starting from the breakpoint pass's tree |
| DepthBasedSVCaller.CalledEventsProvenance | src/main/java/org/broadinstitute/hellbender/tools/spark/sv/discovery/DepthBasedSVCaller.java:237-270 | every call was made for a breakpoint pair or a link; in acceptance order, the first calls, as many as the breakpoint pass accepted, come from breakpoint pairs and the rest from links |
| DepthBasedSVCaller.CalledEventsDistinct | src/main/java/org/broadinstitute/hellbender/tools/spark/sv/discovery/DepthBasedSVCaller.java:236-270 | with an interval-keeping factory, no returned call reciprocally overlaps an earlier one at or above the maximum |
| DepthBasedSVCaller.CallEvents | src/main/java/org/broadinstitute/hellbender/tools/spark/sv/discovery/DepthBasedSVCaller.java:234-271 | the result is exactly the calls accepted by the breakpoint pass then the link pass, in acceptance order; every call was made for a breakpoint pair or a link, with the positional provenance split and the conditional no-duplicates guarantee |
| Intervals.SequenceIndex | src/main/java/org/broadinstitute/hellbender/tools/spark/sv/discovery/DepthBasedSVCaller.java:133 | a known contig name resolves to its index; an unknown one to a negative value |
| BreakpointPairing.OrientPair | src/main/java/org/broadinstitute/hellbender/tools/spark/sv/discovery/DepthBasedSVCaller.java:133-147 | the pair lies on the current record's contig index, start <= end, and start/end and the two contig-name lists come from the two records in one consistent orientation |
| BreakpointPairing.PairStepCases | src/main/java/org/broadinstitute/hellbender/tools/spark/sv/discovery/DepthBasedSVCaller.java:126-153 | a record without MATEID is skipped; one whose mate is not parked is parked under its own ID; one whose mate is parked fails iff the parked record does not name it back, and otherwise removes the mate and emits one ordered pair |
| BreakpointPairing.PairStepCounts | src/main/java/org/broadinstitute/hellbender/tools/spark/sv/discovery/DepthBasedSVCaller.java:130-153 | one iteration parks at most one record, or unparks one and emits one pair |
| BreakpointPairing.PairFromCounts | src/main/java/org/broadinstitute/hellbender/tools/spark/sv/discovery/DepthBasedSVCaller.java:122-158 | twice the pairs plus the parked records never exceed the records seen |
| BreakpointPairing.MismatchIsFatal | src/main/java/org/broadinstitute/hellbender/tools/spark/sv/discovery/DepthBasedSVCaller.java:148-150 | a mismatch met at any record makes the whole pairing fail with that mismatch |
| BreakpointPairing.IsBreakpointPair | src/main/java/org/broadinstitute/hellbender/tools/spark/sv/discovery/DepthBasedSVCaller.java:164-168 | true when each record's MATEID names the other; when true, the first names the second, and the second names the first or, lacking a MATEID, the first's ID is empty |
| BreakpointPairing.PairStep | src/main/java/org/broadinstitute/hellbender/tools/spark/sv/discovery/DepthBasedSVCaller.java:127-153 | one iteration appends at most one pair, parks at most the current record, and a failure reports the current record with a parked record that does not pair with it |
| BreakpointPairing.PairFrom | src/main/java/org/broadinstitute/hellbender/tools/spark/sv/discovery/DepthBasedSVCaller.java:126-154 | the loop never revises emitted pairs, and a failure reports one of the input records |
| BreakpointPairing.PairStepProvenance | src/main/java/org/broadinstitute/hellbender/tools/spark/sv/discovery/DepthBasedSVCaller.java:130-153 | one iteration keeps every parked record and every pair traceable to records read so far; a mismatch comes from the current record and an earlier one |
| BreakpointPairing.PairFromProvenance | src/main/java/org/broadinstitute/hellbender/tools/spark/sv/discovery/DepthBasedSVCaller.java:126-154 | over the whole loop, every pair is the oriented pair of an input record and an earlier record it mates with, and a mismatch names an input record and an earlier one that does not name it back |
| BreakpointPairing.PassCounts | src/main/java/org/broadinstitute/hellbender/tools/spark/sv/discovery/DepthBasedSVCaller.java:122-158 | a pass from no parked records and no pairs emits at most half as many pairs as records, all ordered, and parks only records with a MATEID under their own ID |
| BreakpointPairing.PassProvenance | src/main/java/org/broadinstitute/hellbender/tools/spark/sv/discovery/DepthBasedSVCaller.java:122-158 | a pass from no parked records and no pairs emits only pairs of a record and an earlier record it mates with, and a mismatch names a record and an earlier one that does not name it back |
| BreakpointPairing.GetIntrachromosomalBreakpointPairs | src/main/java/org/broadinstitute/hellbender/tools/spark/sv/discovery/DepthBasedSVCaller.java:122-159 | at most half as many pairs as records; every pair ordered and made by a record and an earlier record it mates with; a failure reports a record whose MATEID names an earlier record that carries a MATEID not naming it back; when IDs are distinct and every MATEID that names a record is answered by that record, the pass succeeds and pairs every mutually mated couple, the later record as the current one |
| BreakpointPairing.StepSucceeds | src/main/java/org/broadinstitute/hellbender/tools/spark/sv/discovery/DepthBasedSVCaller.java:129-149 | when every MATEID that names a record is answered and parked records are earlier records, an iteration never throws the mismatch |
| BreakpointPairing.ParkedStep | src/main/java/org/broadinstitute/hellbender/tools/spark/sv/discovery/DepthBasedSVCaller.java:127-152 | an iteration parks only the current record, under its own ID, so every parked record is a record already read |
| BreakpointPairing.MateOfNextIsParked | src/main/java/org/broadinstitute/hellbender/tools/spark/sv/discovery/DepthBasedSVCaller.java:150-152 | an earlier record naming the current one as its mate was parked, because nothing before the current record carried its ID |
| BreakpointPairing.WaitingOnMatch | src/main/java/org/broadinstitute/hellbender/tools/spark/sv/discovery/DepthBasedSVCaller.java:129-130 | removing the current record's parked mate leaves every other record still waiting for its mate parked |
| BreakpointPairing.WaitingOnNoMatch | src/main/java/org/broadinstitute/hellbender/tools/spark/sv/discovery/DepthBasedSVCaller.java:127-152 | a record that pairs with nothing is parked if it has a MATEID, and the records already waiting stay parked |
| BreakpointPairing.PairsOnMatch | src/main/java/org/broadinstitute/hellbender/tools/spark/sv/discovery/DepthBasedSVCaller.java:129-146 | a record whose mate is parked emits that couple's pair, the only mutual couple it completes |
| BreakpointPairing.PairsOnNoMatch | src/main/java/org/broadinstitute/hellbender/tools/spark/sv/discovery/DepthBasedSVCaller.java:127-152 | a record that emits no pair has no earlier mutual mate, so every mutual couple read so far stays paired |
| BreakpointPairing.CompleteStep | src/main/java/org/broadinstitute/hellbender/tools/spark/sv/discovery/DepthBasedSVCaller.java:125-153 | with distinct IDs and agreeing MATEIDs, one iteration never fails and keeps every waiting record parked and every mutual couple among the records read so far paired |
| BreakpointPairing.PairFromSnoc | src/main/java/org/broadinstitute/hellbender/tools/spark/sv/discovery/DepthBasedSVCaller.java:125-153 | the loop over the records plus one more is the loop over the records followed by one iteration, a failure included |
| BreakpointPairing.CompletePrefix | src/main/java/org/broadinstitute/hellbender/tools/spark/sv/discovery/DepthBasedSVCaller.java:125-153 | with distinct IDs and agreeing MATEIDs, after any number of records the loop has not failed, every waiting record is parked and every mutual couple read so far is paired |
| BreakpointPairing.MutualMatesArePaired | src/main/java/org/broadinstitute/hellbender/tools/spark/sv/discovery/DepthBasedSVCaller.java:122-158 | completeness: with distinct IDs and agreeing MATEIDs the loop succeeds and emits the oriented pair of every mutually mated couple |
| BreakpointPairing.AnyMutualMatesPair | src/main/java/org/broadinstitute/hellbender/tools/spark/sv/discovery/DepthBasedSVCaller.java:122-158 | any two records with different IDs that name each other yield exactly one pair, oriented with the second as the current record |
| BreakpointPairing.MutualMatesMakeOnePair | src/main/java/org/broadinstitute/hellbender/tools/spark/sv/discovery/DepthBasedSVCaller.java:126-147 | mutual mates at 1000 and 2000 make the single pair {0, 1000, 2000} with each record's contig names |
| BreakpointPairing.MismatchDetectionDependsOnOrder | src/main/java/org/broadinstitute/hellbender/tools/spark/sv/discovery/DepthBasedSVCaller.java:130-153 | "A names B, B names C" fails in the order B, A and silently yields no pair in the order A, B |
| BreakpointPairing.MatesOnDifferentContigsArePaired | src/main/java/org/broadinstitute/hellbender/tools/spark/sv/discovery/DepthBasedSVCaller.java:132-147 | mates on different contigs are paired, on the contig of the record read second |
| ReadsSparkSource.ScanIntervals | src/main/java/org/broadinstitute/hellbender/engine/spark/datasources/ReadsSparkSource.java:268-278 | a record with a sort coordinate is decided by containment of its start in the first interval alone; any other record is accepted iff some interval overlaps it |
| ReadsSparkSource.SamRecordOverlaps | src/main/java/org/broadinstitute/hellbender/engine/spark/datasources/ReadsSparkSource.java:257-279 | no parameters accept all; an unplaced unmapped record is accepted iff unmapped traversal is on; a missing or empty interval list rejects the rest; a sort-coordinate record is decided by the first interval; a mapped record is accepted iff some interval overlaps it |
| ReadsSparkSource.SamRecordOverlapsIntended | src/main/java/org/broadinstitute/hellbender/engine/spark/datasources/ReadsSparkSource.java:268-273 | a sort-coordinate record is accepted iff some interval on its contig contains its coordinate |
| ReadsSparkSource.IntendedAgreesWithoutSortCoordinate | src/main/java/org/broadinstitute/hellbender/engine/spark/datasources/ReadsSparkSource.java:257-279 | the corrected filter agrees with the code on every record without a sort coordinate |
| ReadsSparkSource.SortCoordinateDecidedByFirstIntervalIgnoringContig | src/main/java/org/broadinstitute/hellbender/engine/spark/datasources/ReadsSparkSource.java:268-273 | a record at chr2:100 is rejected against [chr1:1-50, chr2:50-150] and accepted against [chr1:1-200], the opposite of the corrected filter |
| ReadsSparkSource.CheckCramReference | src/main/java/org/broadinstitute/hellbender/engine/spark/datasources/ReadsSparkSource.java:237-250 | passes iff the input is not CRAM or the reference is given, not 2bit, and exists; each failure carries its own error and message |
| ReadsSparkSource.GroupEnd | src/main/java/org/broadinstitute/hellbender/engine/spark/datasources/ReadsSparkSource.java:192-194 | the scan stops at the first read whose name differs from the first read's, or at the end |
| ReadsSparkSource.LeadingGroupLength | src/main/java/org/broadinstitute/hellbender/engine/spark/datasources/ReadsSparkSource.java:187-196 | the leading group is the maximal non-empty prefix of reads named like the first read |
| ReadsSparkSource.RepeatedLeadingName | src/main/java/org/broadinstitute/hellbender/engine/spark/datasources/ReadsSparkSource.java:199-210 | none iff no two consecutive partitions' leading groups share a name; otherwise a name shared by such a pair |
| ReadsSparkSource.PutPairsInSamePartition | src/main/java/org/broadinstitute/hellbender/engine/spark/datasources/ReadsSparkSource.java:180-235 | unchanged unless queryname-sorted; an empty RDD or partition fails; fails iff two consecutive partitions lead with the same name; otherwise each partition, minus its leading group unless that carries the file's first name, gets the next partition's leading group, and the last gets nothing |
| ReadsSparkSource.Regroup | src/main/java/org/broadinstitute/hellbender/engine/spark/datasources/ReadsSparkSource.java:212-234 | the per-partition shape of the regrouped output |
| ReadsSparkSource.FlattenPreserved | src/main/java/org/broadinstitute/hellbender/engine/spark/datasources/ReadsSparkSource.java:212-234 | when only the first partition leads with the file's first read name, the output read in order is exactly the input read in order |
| ReadsSparkSource.RegroupingMovesLeadingGroups | src/main/java/org/broadinstitute/hellbender/engine/spark/datasources/ReadsSparkSource.java:216-233 | handing each leading group to the previous partition preserves the concatenation |
| ReadsSparkSource.RegroupedSuffix | src/main/java/org/broadinstitute/hellbender/engine/spark/datasources/ReadsSparkSource.java:216-233 | the same from any later partition on: its output suffix is its remainder followed by the rest of the input |
| ReadsSparkSource.LeadingGroupThenRemainder | src/main/java/org/broadinstitute/hellbender/engine/spark/datasources/ReadsSparkSource.java:222-226 | skipping the leading group leaves exactly the rest of the partition |
| ReadsSparkSource.SortedLeadingNamesAvoidFirstName | src/main/java/org/broadinstitute/hellbender/engine/spark/datasources/ReadsSparkSource.java:199-210 | under an antisymmetric order of leading names, passing the consecutive check rules out a later partition leading with the first name |
| ReadsSparkSource.RepeatedFirstNameDuplicatesReads | src/main/java/org/broadinstitute/hellbender/engine/spark/datasources/ReadsSparkSource.java:199-234 | leading names a, b, a pass the check, yet read a is emitted twice, so the concatenation is not preserved |
| ReadsSparkSource.RegroupNamesABA | src/main/java/org/broadinstitute/hellbender/engine/spark/datasources/ReadsSparkSource.java:212-234 | the exact output for single-read partitions a, b, a |

## Left out

- Logging, the count of unpaired breakends in the pairing warning, and the dead debug conditionals in the two search loops: they have no effect on results.
- The null checks on the constructor's arguments: Dafny values are never null. The `breakpoints` argument of the link pass is `None`.
- `SVIntervalTree`'s code is not part of this model. GATK's tree is a sorted interval tree: it iterates in key order, and putting a value under a key already present replaces the old value. The model keeps every entry, in insertion order. This changes three things. The link pass tries links in a different order, which can change which of two overlapping candidates is accepted. When two same-contig links have the same fused span, the model tries both. And the list `callEvents` returns is in a different order (see the next two lines).
- DepthBasedSVCaller.CallEvents: the result is in acceptance order, breakpoint-pass calls first. The source returns the tree in key order (line 270), which interleaves the two passes by interval. When no two calls share an interval, that list is a reordering of the model's. The clause "every call was made for a breakpoint pair or a link" holds in any order. The positional split and the "no call overlaps an earlier one" clause hold only for acceptance order.
- DepthBasedSVCaller.CalledEventsProvenance: the positional breakpoint-then-link split is stated for acceptance order, not for the key order of the returned list. Only the order-free clause carries over.
- DepthBasedSVCaller.CalledEventsDistinct: "earlier" means accepted earlier, not earlier in the key-ordered list.
- Evidence.BuildEvidenceIntervalTree: entries with equal keys are all kept. In the real tree a later link with the same padded span replaces the earlier one.
- Evidence.BuildReadIntervalTree: two mapped contigs with the same interval are both kept. The real tree keeps only the later one. So `DepthBasedSVCaller.NewCaller`'s "the contig tree holds exactly the mapped contigs" is a statement about the model's tree; the real tree holds one contig per distinct interval.
- `LargeTandemDuplicationFactory`'s inputs: the real factory is built in the constructor from the two link trees, the contig tree, the arguments, the two copy-ratio overlap detectors and the dictionary (DepthBasedSVCaller.java:74-75). It walks sorted trees with duplicate keys collapsed. The model's factory is a free parameter of `NewCaller`, stored unchanged. It has no link to the caller's trees or bins, so the model does not constrain what the factory computes from them. The accepted-call tree never reaches the factory; it is read only by the reciprocal-overlap gate (line 226).
- IntervalTree.HasReciprocalOverlapInTree: compares the fraction for every key. The library visits only keys that overlap the query. The two agree when the fraction parameter is 0 for intervals that do not overlap and the threshold is positive. The model does not assume this about the parameter.
- `IntervalUtils` and `SVInterval` arithmetic (padding, clamping, reciprocal-overlap fraction, length, conversion): these are parameters.
- `LargeTandemDuplicationFactory` and `LargeSimpleSV.getScore`: the factory is a parameter. The `double` score is a `real`, so NaN is not modelled.
- `OverlapDetector` and the `CopyRatioCollection` metadata: the copy-ratio detector is the list of kept bins, and the segment overlap detector is not modelled.
- htsjdk's `SAMRecord` as a locatable: an unmapped record is taken to report no contig, so `interval.overlaps(record)` is false for it. The field-level details of `SAMRecord` are not part of this model.
- Spark, Hadoop and htsjdk I/O: `getParallelReads`, `getADAMReads`, `getHeader` and the RDD mechanics. `putPairsInSamePartition` works on the partitions as a sequence of sequences.
- `ReadsSparkSink`, `GetHetCoverage` and the Python tool bridge: I/O plumbing outside these two classes.
- The ghost predicates `BreakpointPairing.WellFormed`, `BreakpointPairing.DistinctIds`, `BreakpointPairing.MatesAgree`, `BreakpointPairing.Complete` (with its three parts) and `DepthBasedSVCaller.FactoryKeepsCallInterval` are hypotheses of the lemmas, not operations of the source, so they have no row.
- The `first()` call of `putPairsInSamePartition` is modelled as the first read of the first partition. That is what `first()` returns once every partition is non-empty, and otherwise the model fails anyway.

## Findings

| source | as written | input that shows it | evidently intended | confidence | as-written member | corrected member |
|---|---|---|---|---|---|---|
| src/main/java/org/broadinstitute/hellbender/engine/spark/datasources/ReadsSparkSource.java:268-273 | an unmapped read with a sort coordinate is decided by the first interval alone, by containment of its start, whatever the interval's contig | a read unmapped at chr2:100 against intervals [chr1:1-50, chr2:50-150] is rejected; against [chr1:1-200] it is accepted | accept such a read iff some interval on its contig contains the coordinate, as the comment quoting htsjdk's query semantics says | medium, not executed | ReadsSparkSource.SamRecordOverlaps (exhibited by ReadsSparkSource.SortCoordinateDecidedByFirstIntervalIgnoringContig) | ReadsSparkSource.SamRecordOverlapsIntended (with ReadsSparkSource.IntendedAgreesWithoutSortCoordinate) |
