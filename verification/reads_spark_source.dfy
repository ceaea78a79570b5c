/** The pure decisions of the Spark reads source: the traversal filter for records read without
    an index, the CRAM reference check, and the regrouping that keeps read-name groups of a
    queryname-sorted file inside one partition. */
module ReadsSparkSource {
  import opened Outcomes
  import opened Seqs
  import opened Intervals

  /** The errors the source raises. */
  datatype ReadSourceError =
    | MissingReference(message: string)     // UserException.MissingReference
    | UserError(message: string)            // UserException
    | ReadNameAcrossPartitions(name: string) // GATKException from the partition check
    | EmptyRdd                              // `first()` on an RDD without reads
    | EmptyPartition                        // `next()` on the iterator of an empty partition

  // ---------------------------------------------------------------------------------------------
  // samRecordOverlaps

  /** htsjdk's `SAMRecord.NO_ALIGNMENT_START`. */
  const NO_ALIGNMENT_START: int := 0

  /** A SAM record, reduced to the fields the traversal filter reads. */
  datatype SamRecord = SamRecord(referenceName: string, alignmentStart: int, alignmentEnd: int, readUnmapped: bool)

  /** Traversal parameters: the intervals (possibly null) and whether unmapped reads are traversed. */
  datatype TraversalParameters = TraversalParameters(intervalsForTraversal: Option<seq<SimpleInterval>>,
                                                     traverseUnmappedReads: bool)

  /** `SimpleInterval.overlaps(record)`: same contig and intersecting closed ranges. An unmapped
      record reports no contig as a locatable and so overlaps no interval. */
  predicate IntervalOverlapsRecord(interval: SimpleInterval, record: SamRecord) {
    && !record.readUnmapped
    && interval.contig == record.referenceName
    && interval.start <= record.alignmentEnd
    && record.alignmentStart <= interval.end
  }

  /** An unmapped record placed at a coordinate for sorting purposes. */
  predicate HasSortCoordinate(record: SamRecord) {
    record.readUnmapped && record.alignmentStart != NO_ALIGNMENT_START
  }

  /** The record passes the first branch of the filter: unmapped, unplaced, and unmapped reads are
      traversed. */
  predicate IsTraversedUnplacedRead(record: SamRecord, parameters: TraversalParameters) {
    parameters.traverseUnmappedReads && record.readUnmapped && record.alignmentStart == NO_ALIGNMENT_START
  }

  /** The interval loop of `samRecordOverlaps`: a record with a sort coordinate is decided by the
      first interval alone, by inclusive containment of its start and whatever the contig; any
      other record is accepted when some interval overlaps it. */
  function ScanIntervals(intervals: seq<SimpleInterval>, record: SamRecord): (r: bool)
    ensures HasSortCoordinate(record) ==>
      (r <==> intervals != [] && intervals[0].start <= record.alignmentStart <= intervals[0].end)
    ensures !HasSortCoordinate(record) ==>
      (r <==> exists i :: 0 <= i < |intervals| && IntervalOverlapsRecord(intervals[i], record))
  {
    if intervals == [] then false
    else if HasSortCoordinate(record) then
      var start := record.alignmentStart;
      intervals[0].start <= start && intervals[0].end >= start
    else if IntervalOverlapsRecord(intervals[0], record) then true
    else
      var rest := ScanIntervals(intervals[1..], record);
      assert forall i :: 1 <= i < |intervals| ==> intervals[i] == intervals[1..][i - 1];
      rest
  }

  /** `samRecordOverlaps`. Without traversal parameters every record is accepted; a traversed
      unplaced unmapped record is accepted; otherwise a missing or empty interval list rejects;
      a record with a sort coordinate is decided by containment of its start in the first
      interval; an unplaced record is rejected; a mapped record is accepted iff some interval
      overlaps it. */
  function SamRecordOverlaps(record: SamRecord, parameters: Option<TraversalParameters>): (r: bool)
    ensures parameters.None? ==> r
    ensures parameters.Some? && IsTraversedUnplacedRead(record, parameters.value) ==> r
    ensures parameters.Some? && !IsTraversedUnplacedRead(record, parameters.value) &&
            (parameters.value.intervalsForTraversal.None? || parameters.value.intervalsForTraversal.value == [])
            ==> !r
    ensures parameters.Some? && parameters.value.intervalsForTraversal.Some? && HasSortCoordinate(record) ==>
      var intervals := parameters.value.intervalsForTraversal.value;
      (r <==> intervals != [] && intervals[0].start <= record.alignmentStart <= intervals[0].end)
    ensures parameters.Some? && record.readUnmapped && record.alignmentStart == NO_ALIGNMENT_START ==>
      (r <==> parameters.value.traverseUnmappedReads)
    ensures parameters.Some? && parameters.value.intervalsForTraversal.Some? && !record.readUnmapped ==>
      var intervals := parameters.value.intervalsForTraversal.value;
      (r <==> exists i :: 0 <= i < |intervals| && IntervalOverlapsRecord(intervals[i], record))
  {
    match parameters
    case None => true
    case Some(tp) =>
      if IsTraversedUnplacedRead(record, tp) then true
      else
        match tp.intervalsForTraversal
        case None => false
        case Some(intervals) =>
          if intervals == [] then false
          else ScanIntervals(intervals, record)
  }

  /** Inclusive containment of the record's sort coordinate in an interval on its contig. */
  predicate ContainsSortCoordinate(interval: SimpleInterval, record: SamRecord) {
    interval.contig == record.referenceName && interval.start <= record.alignmentStart <= interval.end
  }

  /** The filter as its own comment describes it, following htsjdk's query semantics: an unmapped
      record with a sort coordinate is returned when that coordinate lies in some query interval,
      contig included. Everything else is decided as in `SamRecordOverlaps`. */
  function SamRecordOverlapsIntended(record: SamRecord, parameters: Option<TraversalParameters>): (r: bool)
    ensures parameters.Some? && parameters.value.intervalsForTraversal.Some? && HasSortCoordinate(record) ==>
      var intervals := parameters.value.intervalsForTraversal.value;
      (r <==> exists i :: 0 <= i < |intervals| && ContainsSortCoordinate(intervals[i], record))
  {
    match parameters
    case Some(TraversalParameters(Some(intervals), _)) =>
      if HasSortCoordinate(record) then exists i :: 0 <= i < |intervals| && ContainsSortCoordinate(intervals[i], record)
      else SamRecordOverlaps(record, parameters)
    case _ => SamRecordOverlaps(record, parameters)
  }

  /** The two filters disagree only on unmapped records with a sort coordinate. */
  lemma IntendedAgreesWithoutSortCoordinate(record: SamRecord, parameters: Option<TraversalParameters>)
    requires !HasSortCoordinate(record)
    ensures SamRecordOverlapsIntended(record, parameters) == SamRecordOverlaps(record, parameters)
  {
  }

  /** An unmapped record placed at chr2:100 is rejected when the first interval is chr1:1-50 even
      though the second interval chr2:50-150 contains it, and accepted when the only interval is
      chr1:1-200 although that interval lies on another contig. */
  lemma SortCoordinateDecidedByFirstIntervalIgnoringContig()
    ensures
      var record := SamRecord("chr2", 100, 0, true);
      var twoIntervals := Some(TraversalParameters(Some([SimpleInterval("chr1", 1, 50), SimpleInterval("chr2", 50, 150)]), false));
      var otherContig := Some(TraversalParameters(Some([SimpleInterval("chr1", 1, 200)]), false));
      && !SamRecordOverlaps(record, twoIntervals) && SamRecordOverlapsIntended(record, twoIntervals)
      && SamRecordOverlaps(record, otherContig) && !SamRecordOverlapsIntended(record, otherContig)
  {
    var record := SamRecord("chr2", 100, 0, true);
    var intervals := [SimpleInterval("chr1", 1, 50), SimpleInterval("chr2", 50, 150)];
    assert ContainsSortCoordinate(intervals[1], record);
    assert !ContainsSortCoordinate(SimpleInterval("chr1", 1, 200), record);
  }

  // ---------------------------------------------------------------------------------------------
  // checkCramReference

  /** The file-system facts the check relies on: `IOUtils.isCramFileName`,
      `ReferenceTwoBitSource.isTwoBit` and `SparkUtils.pathExists`. */
  datatype FileSystem = FileSystem(isCramFileName: string -> bool, isTwoBit: string -> bool, pathExists: string -> bool)

  /** `checkCramReference`: a non-CRAM input always passes; a CRAM input needs a reference that is
      present, not a 2bit file, and exists, and each failure carries its own error. */
  function CheckCramReference(filePath: string, referencePath: Option<string>, fs: FileSystem): (r: Outcome<ReadSourceError>)
    ensures r.Pass? <==>
      !fs.isCramFileName(filePath) ||
      (referencePath.Some? && !fs.isTwoBit(referencePath.value) && fs.pathExists(referencePath.value))
    ensures fs.isCramFileName(filePath) && referencePath.None? ==>
      r == Fail(MissingReference("A reference is required for CRAM input"))
    ensures fs.isCramFileName(filePath) && referencePath.Some? && fs.isTwoBit(referencePath.value) ==>
      r == Fail(UserError("A 2bit file cannot be used as a CRAM file reference"))
    ensures fs.isCramFileName(filePath) && referencePath.Some? && !fs.isTwoBit(referencePath.value) && r.Fail? ==>
      r.error == MissingReference("The specified fasta file (" + referencePath.value + ") does not exist.")
  {
    if fs.isCramFileName(filePath) then
      match referencePath
      case None => Fail(MissingReference("A reference is required for CRAM input"))
      case Some(path) =>
        if fs.isTwoBit(path) then Fail(UserError("A 2bit file cannot be used as a CRAM file reference"))
        else if !fs.pathExists(path) then Fail(MissingReference("The specified fasta file (" + path + ") does not exist."))
        else Pass
    else Pass
  }

  // ---------------------------------------------------------------------------------------------
  // putPairsInSamePartition

  /** htsjdk's `SAMFileHeader.SortOrder`. */
  datatype SortOrder = Unsorted | Queryname | Coordinate | Duplicate | Unknown

  /** A read, reduced to its name and the flag word it carries along. */
  datatype Read = Read(name: string, flags: nat)

  /** One partition of the reads RDD, in iteration order. */
  type Partition = seq<Read>

  /** The end of the run of reads named like `p[0]` that starts the partition, scanning from `i`. */
  function GroupEnd(p: Partition, i: nat): (n: nat)
    requires 1 <= i <= |p|
    requires forall k :: 0 <= k < i ==> p[k].name == p[0].name
    ensures i <= n <= |p|
    ensures forall k :: 0 <= k < n ==> p[k].name == p[0].name
    ensures n < |p| ==> p[n].name != p[0].name
    decreases |p| - i
  {
    if i == |p| || p[i].name != p[0].name then i else GroupEnd(p, i + 1)
  }

  /** The length of the partition's leading read-name group: the maximal non-empty prefix of
      reads sharing the first read's name. */
  function LeadingGroupLength(p: Partition): (n: nat)
    requires p != []
    ensures 1 <= n <= |p|
    ensures forall k :: 0 <= k < n ==> p[k].name == p[0].name
    ensures n < |p| ==> p[n].name != p[0].name
  {
    GroupEnd(p, 1)
  }

  function LeadingGroup(p: Partition): seq<Read>
    requires p != []
  {
    p[..LeadingGroupLength(p)]
  }

  /** The partition without its leading group. */
  function Remainder(p: Partition): seq<Read>
    requires p != []
  {
    p[LeadingGroupLength(p)..]
  }

  predicate AllNonEmpty(partitions: seq<Partition>) {
    forall i :: 0 <= i < |partitions| ==> partitions[i] != []
  }

  /** The pathological-case check, from partition `i` on: the name shared by the first two
      consecutive partitions whose leading groups have the same name, if any. */
  function RepeatedLeadingName(partitions: seq<Partition>, i: nat): (r: Option<string>)
    requires 1 <= i
    requires AllNonEmpty(partitions)
    ensures r.None? <==> forall k :: i <= k < |partitions| ==> partitions[k][0].name != partitions[k - 1][0].name
    ensures r.Some? ==> exists k :: i <= k < |partitions| && partitions[k][0].name == partitions[k - 1][0].name == r.value
    decreases |partitions| - i
  {
    if i >= |partitions| then None
    else if partitions[i][0].name == partitions[i - 1][0].name then Some(partitions[i - 1][0].name)
    else RepeatedLeadingName(partitions, i + 1)
  }

  /** Output partition `i`: the input partition, minus its leading group unless that group is
      named like the first read of the file, followed by the next partition's leading group. */
  function RegroupedPartition(partitions: seq<Partition>, i: nat, firstGroupInBam: string): seq<Read>
    requires AllNonEmpty(partitions)
    requires i < |partitions|
  {
    var p := partitions[i];
    var kept := if firstGroupInBam != p[0].name then Remainder(p) else p;
    if i + 1 < |partitions| then kept + LeadingGroup(partitions[i + 1]) else kept
  }

  /** `putPairsInSamePartition`. Unless the header is queryname-sorted the partitions are returned
      unchanged. Otherwise an RDD without reads or with an empty partition fails, as does a
      leading read name shared by two consecutive partitions; each output partition is its input
      partition, minus the leading group unless it carries the file's first read name, followed by
      the next partition's leading group, and the last partition gets nothing appended. */
  function PutPairsInSamePartition(sortOrder: SortOrder, partitions: seq<Partition>): (r: Result<seq<Partition>, ReadSourceError>)
    ensures sortOrder != Queryname ==> r == Ok(partitions)
    ensures sortOrder == Queryname && !AllNonEmpty(partitions) ==> r.Err?
    ensures sortOrder == Queryname && partitions == [] ==> r == Err(EmptyRdd)
    ensures sortOrder == Queryname && AllNonEmpty(partitions) && partitions != [] ==>
      (r.Err? <==> exists k :: 1 <= k < |partitions| && partitions[k][0].name == partitions[k - 1][0].name)
    ensures sortOrder == Queryname && r.Ok? ==>
      && AllNonEmpty(partitions)
      && |r.value| == |partitions|
      && (forall i :: 0 <= i < |partitions| - 1 ==>
            r.value[i] == (if partitions[i][0].name != partitions[0][0].name then Remainder(partitions[i]) else partitions[i])
                          + LeadingGroup(partitions[i + 1]))
      && r.value[|partitions| - 1] ==
           (if partitions[|partitions| - 1][0].name != partitions[0][0].name
            then Remainder(partitions[|partitions| - 1]) else partitions[|partitions| - 1])
  {
    if sortOrder != Queryname then Ok(partitions)
    else if forall i :: 0 <= i < |partitions| ==> partitions[i] == [] then Err(EmptyRdd)
    else if !AllNonEmpty(partitions) then Err(EmptyPartition)
    else
      match RepeatedLeadingName(partitions, 1)
      case Some(name) => Err(ReadNameAcrossPartitions(name))
      case None =>
        Ok(Regroup(partitions))
  }

  /** The regrouping itself, once the checks have passed: every output partition is its input
      partition, minus the leading group unless it carries the file's first read name, followed by
      the next partition's leading group; the last one gets nothing appended. */
  function Regroup(partitions: seq<Partition>): (r: seq<Partition>)
    requires partitions != [] && AllNonEmpty(partitions)
    ensures |r| == |partitions|
    ensures forall i :: 0 <= i < |partitions| - 1 ==>
      r[i] == (if partitions[i][0].name != partitions[0][0].name then Remainder(partitions[i]) else partitions[i])
              + LeadingGroup(partitions[i + 1])
    ensures r[|partitions| - 1] ==
      (if partitions[|partitions| - 1][0].name != partitions[0][0].name
       then Remainder(partitions[|partitions| - 1]) else partitions[|partitions| - 1])
  {
    var firstGroupInBam := partitions[0][0].name;
    seq(|partitions|, i requires 0 <= i < |partitions| => RegroupedPartition(partitions, i, firstGroupInBam))
  }

  /** When no later partition starts with the file's first read name, regrouping only moves reads
      across partition boundaries: the concatenation of all partitions is unchanged. */
  lemma FlattenPreserved(sortOrder: SortOrder, partitions: seq<Partition>)
    requires PutPairsInSamePartition(sortOrder, partitions).Ok?
    requires sortOrder == Queryname ==>
      forall k :: 1 <= k < |partitions| ==> partitions[k][0].name != partitions[0][0].name
    ensures Flatten(PutPairsInSamePartition(sortOrder, partitions).value) == Flatten(partitions)
  {
    if sortOrder == Queryname {
      var output := PutPairsInSamePartition(sortOrder, partitions).value;
      var n := |partitions|;
      assert n > 0 && AllNonEmpty(partitions) && |output| == n;
      forall k | 1 <= k < n - 1
        ensures output[k] == Remainder(partitions[k]) + LeadingGroup(partitions[k + 1])
      {
      }
      RegroupingMovesLeadingGroups(partitions, output);
    }
  }

  /** Partitions that each hand their leading group to their predecessor, all but the first
      losing it, read one after another give back the input reads in order. */
  lemma RegroupingMovesLeadingGroups(partitions: seq<Partition>, output: seq<Partition>)
    requires partitions != [] && AllNonEmpty(partitions)
    requires |output| == |partitions|
    requires |partitions| == 1 ==> output[0] == partitions[0]
    requires 1 < |partitions| ==> output[0] == partitions[0] + LeadingGroup(partitions[1])
    requires forall k :: 1 <= k < |partitions| - 1 ==> output[k] == Remainder(partitions[k]) + LeadingGroup(partitions[k + 1])
    requires 1 < |partitions| ==> output[|partitions| - 1] == Remainder(partitions[|partitions| - 1])
    ensures Flatten(output) == Flatten(partitions)
  {
    var n := |partitions|;
    FlattenSuffix(output, 0);
    FlattenSuffix(partitions, 0);
    assert output[0..] == output && partitions[0..] == partitions;
    if n == 1 {
      assert Flatten(output[1..]) == [] == Flatten(partitions[1..]) by {
        assert output[1..] == [] && partitions[1..] == [];
      }
    } else {
      RegroupedSuffix(partitions, output, 1);
      FlattenSuffix(partitions, 1);
      LeadingGroupThenRemainder(partitions[1]);
      JoinShifted(partitions[0], LeadingGroup(partitions[1]), Remainder(partitions[1]), Flatten(partitions[2..]),
                  output[0], Flatten(output[1..]), Flatten(partitions[1..]));
    }
  }

  /** The suffix form of the above, from a partition that has already given away its leading
      group. */
  lemma {:induction false} RegroupedSuffix(partitions: seq<Partition>, output: seq<Partition>, i: nat)
    requires AllNonEmpty(partitions)
    requires |output| == |partitions|
    requires forall k :: 1 <= k < |partitions| - 1 ==> output[k] == Remainder(partitions[k]) + LeadingGroup(partitions[k + 1])
    requires 1 < |partitions| ==> output[|partitions| - 1] == Remainder(partitions[|partitions| - 1])
    requires 1 <= i < |partitions|
    ensures Flatten(output[i..]) == Remainder(partitions[i]) + Flatten(partitions[i + 1..])
    decreases |partitions| - i
  {
    FlattenSuffix(output, i);
    if i == |partitions| - 1 {
      assert output[i + 1..] == [] && partitions[i + 1..] == [];
    } else {
      var head, tail := LeadingGroup(partitions[i + 1]), Remainder(partitions[i + 1]);
      var rest := Flatten(partitions[i + 2..]);
      assert Flatten(output[i + 1..]) == tail + rest by {
        RegroupedSuffix(partitions, output, i + 1);
      }
      assert Flatten(partitions[i + 1..]) == head + tail + rest by {
        FlattenSuffix(partitions, i + 1);
        LeadingGroupThenRemainder(partitions[i + 1]);
      }
      assert output[i] == Remainder(partitions[i]) + head;
      JoinShifted(Remainder(partitions[i]), head, tail, rest, output[i], Flatten(output[i + 1..]), Flatten(partitions[i + 1..]));
    }
  }

  /** A partition is its leading group followed by the remainder. */
  lemma LeadingGroupThenRemainder(p: Partition)
    requires p != []
    ensures p == LeadingGroup(p) + Remainder(p)
  {
    assert p == p[..LeadingGroupLength(p)] + p[LeadingGroupLength(p)..];
  }

  /** For a file whose partitions' leading names are ordered by an antisymmetric order (as a
      queryname sort gives), passing the consecutive-name check already rules out a later
      partition starting with the file's first read name. */
  lemma {:induction false} SortedLeadingNamesAvoidFirstName(partitions: seq<Partition>, le: (string, string) -> bool)
    requires AllNonEmpty(partitions)
    requires forall a, b :: le(a, b) && le(b, a) ==> a == b
    requires forall i, j :: 0 <= i < j < |partitions| ==> le(partitions[i][0].name, partitions[j][0].name)
    requires forall k :: 1 <= k < |partitions| ==> partitions[k][0].name != partitions[k - 1][0].name
    ensures forall k :: 1 <= k < |partitions| ==> partitions[k][0].name != partitions[0][0].name
  {
    forall k | 1 < k < |partitions|
      ensures partitions[k][0].name != partitions[0][0].name
    {
      var first, second := partitions[0][0].name, partitions[1][0].name;
      assert le(first, second) && le(second, partitions[k][0].name);
    }
  }

  /** Without that ordering the check is not enough: leading names a, b, a pass it, yet the third
      partition keeps its leading read while that read is also appended to the second one. */
  lemma RepeatedFirstNameDuplicatesReads()
    ensures
      var a, b := Read("a", 0), Read("b", 0);
      var result := PutPairsInSamePartition(Queryname, [[a], [b], [a]]);
      && result == Ok([[a, b], [a], [a]])
      && Flatten(result.value) != Flatten([[a], [b], [a]])
  {
    var a, b := Read("a", 0), Read("b", 0);
    RegroupNamesABA(a, b);
    FlattenOfThree([a, b], [a], [a]);
    FlattenOfThree([a], [b], [a]);
  }

  /** The regrouping of single-read partitions with leading names a, b, a. */
  lemma RegroupNamesABA(a: Read, b: Read)
    requires a.name != b.name
    ensures PutPairsInSamePartition(Queryname, [[a], [b], [a]]) == Ok([[a, b], [a], [a]])
  {
    var partitions := [[a], [b], [a]];
    assert AllNonEmpty(partitions);
    assert partitions[0] != [];
    assert RepeatedLeadingName(partitions, 1) == None by {
      assert RepeatedLeadingName(partitions, 3) == None;
      assert RepeatedLeadingName(partitions, 2) == None;
    }
    assert LeadingGroupLength([a]) == 1 && LeadingGroupLength([b]) == 1;
    var regrouped := seq(3, i requires 0 <= i < 3 => RegroupedPartition(partitions, i, a.name));
    assert PutPairsInSamePartition(Queryname, partitions) == Ok(regrouped);
    assert regrouped[0] == [a] + [b];
    assert regrouped[1] == [] + [a];
    assert regrouped[2] == [a];
    assert [a] + [b] == [a, b] && [] + [a] == [a];
    assert regrouped == [[a, b], [a], [a]];
  }
}
