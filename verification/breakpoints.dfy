/** Pairing of breakend (BND) records into intrachromosomal breakpoint pairs by their MATEID
    attribute, the breakend mate reference of section 5.4 of the VCF 4.2 specification. */
module BreakpointPairing {
  import opened Outcomes
  import opened Intervals

  /** A breakend variant record: its ID, its MATEID attribute when present, its contig and
      position, and its CONTIG_NAMES attribute (the empty list when absent). */
  datatype BreakendRecord = BreakendRecord(id: string, mateId: Option<string>, contig: string, start: int,
                                           contigNames: seq<string>)

  /** Two mated breakends on one contig index: `start` and `end` are the two positions, and the
      two name lists are the supporting contig names of the first and the second record. */
  datatype IntrachromosomalBreakpointPair = IntrachromosomalBreakpointPair(
    contig: int, start: int, end: int, firstContigNames: seq<string>, secondContigNames: seq<string>)
  {
    /** The span of the pair, used as its index key and as its call interval. */
    function Interval(): SVInterval {
      SVInterval(contig, start, end)
    }
  }

  /** The fatal "Variant mate attributes did not match" condition, carrying both records. */
  datatype PairingError = MateAttributesDidNotMatch(current: BreakendRecord, parked: BreakendRecord)

  /** The loop state: records parked under their own ID while waiting for their mate, and the
      pairs emitted so far. */
  datatype PairingState = PairingState(unpaired: map<string, BreakendRecord>, pairs: seq<IntrachromosomalBreakpointPair>)

  const EmptyState := PairingState(map[], [])

  /** `getAttributeAsString(MATEID, "")`. */
  function MateAttribute(record: BreakendRecord): string {
    match record.mateId
    case Some(mate) => mate
    case None => ""
  }

  /** `isBreakpointPair`: the first record has a MATEID, and each names the other as its mate.
      The second record's MATEID is read with the empty default, so a record without MATEID still
      matches a first record whose own ID is empty. */
  predicate IsBreakpointPair(vc1: BreakendRecord, vc2: BreakendRecord): (r: bool)
    ensures r ==> vc1.mateId == Some(vc2.id)
    ensures r && vc2.mateId.Some? ==> vc2.mateId == Some(vc1.id)
    ensures r && vc2.mateId.None? ==> vc1.id == ""
    ensures vc1.mateId == Some(vc2.id) && vc2.mateId == Some(vc1.id) ==> r
  {
    vc1.mateId.Some? && MateAttribute(vc1) == vc2.id && MateAttribute(vc2) == vc1.id
  }

  /** Parked records are stored under their own ID and all carry a MATEID; emitted pairs are
      ordered. */
  ghost predicate WellFormed(state: PairingState) {
    && (forall k :: k in state.unpaired ==> state.unpaired[k].id == k && state.unpaired[k].mateId.Some?)
    && (forall i :: 0 <= i < |state.pairs| ==> state.pairs[i].start <= state.pairs[i].end)
  }

  /** The pair emitted for the current record `vc1` and its parked mate `vc2`: the record with the
      smaller position comes first (the parked one on equal positions), and the contig index is
      resolved from the current record's contig name. */
  function OrientPair(vc1: BreakendRecord, vc2: BreakendRecord, dictionary: SequenceDictionary): (p: IntrachromosomalBreakpointPair)
    ensures p.contig == SequenceIndex(dictionary, vc1.contig)
    ensures p.start <= p.end
    ensures || (p.start == vc1.start && p.firstContigNames == vc1.contigNames &&
                p.end == vc2.start && p.secondContigNames == vc2.contigNames)
            || (p.start == vc2.start && p.firstContigNames == vc2.contigNames &&
                p.end == vc1.start && p.secondContigNames == vc1.contigNames)
    ensures vc1.start == vc2.start ==> p.firstContigNames == vc2.contigNames && p.secondContigNames == vc1.contigNames
  {
    var contig := SequenceIndex(dictionary, vc1.contig);
    var (first, second) := if vc1.start < vc2.start then (vc1, vc2) else (vc2, vc1);
    IntrachromosomalBreakpointPair(contig, first.start, second.start, first.contigNames, second.contigNames)
  }

  /** One iteration of the pairing loop for the record `vc1`. It emits at most one pair and only
      appends to the pairs, it parks at most `vc1` itself, and a failure reports `vc1` together
      with a parked record that does not make a pair with it. */
  function PairStep(state: PairingState, vc1: BreakendRecord, dictionary: SequenceDictionary): (r: Result<PairingState, PairingError>)
    ensures r.Ok? ==> |state.pairs| <= |r.value.pairs| <= |state.pairs| + 1 && r.value.pairs[..|state.pairs|] == state.pairs
    ensures r.Ok? ==> r.value.unpaired.Keys <= state.unpaired.Keys + {vc1.id}
    ensures r.Err? ==> r.error.current == vc1 && r.error.parked in state.unpaired.Values && !IsBreakpointPair(vc1, r.error.parked)
  {
    if vc1.mateId.None? then Ok(state)
    else
      var mate := MateAttribute(vc1);
      if mate in state.unpaired then
        var vc2 := state.unpaired[mate];
        if IsBreakpointPair(vc1, vc2) then
          Ok(PairingState(state.unpaired - {mate}, state.pairs + [OrientPair(vc1, vc2, dictionary)]))
        else
          Err(MateAttributesDidNotMatch(vc1, vc2))
      else
        Ok(PairingState(state.unpaired[vc1.id := vc1], state.pairs))
  }

  /** The pairing loop over the remaining records, stopping at the first fatal mismatch. Emitted
      pairs are never revised, and a failure reports one of the records. */
  function PairFrom(state: PairingState, records: seq<BreakendRecord>, dictionary: SequenceDictionary): (r: Result<PairingState, PairingError>)
    ensures r.Ok? ==> |state.pairs| <= |r.value.pairs| && r.value.pairs[..|state.pairs|] == state.pairs
    ensures r.Err? ==> exists k :: 0 <= k < |records| && r.error.current == records[k]
    decreases |records|
  {
    if records == [] then Ok(state)
    else
      match PairStep(state, records[0], dictionary)
      case Err(e) => Err(e)
      case Ok(next) =>
        var r := PairFrom(next, records[1..], dictionary);
        assert r.Ok? ==> r.value.pairs[..|state.pairs|] == r.value.pairs[..|next.pairs|][..|state.pairs|];
        assert r.Err? ==> forall k :: 0 <= k < |records[1..]| ==> records[1..][k] == records[k + 1];
        r
  }

  /** The three outcomes of one iteration, stated for a well-formed loop state: a record without
      MATEID is skipped; a record whose mate is not parked is parked under its own ID; a record
      whose mate is parked either fails, exactly when the parked record does not name it back, or
      removes the mate and emits one ordered pair. The state stays well-formed. */
  lemma PairStepCases(state: PairingState, vc1: BreakendRecord, dictionary: SequenceDictionary)
    requires WellFormed(state)
    ensures vc1.mateId.None? ==> PairStep(state, vc1, dictionary) == Ok(state)
    ensures vc1.mateId.Some? && vc1.mateId.value !in state.unpaired ==>
      PairStep(state, vc1, dictionary) == Ok(PairingState(state.unpaired[vc1.id := vc1], state.pairs))
    ensures vc1.mateId.Some? && vc1.mateId.value in state.unpaired ==>
      var vc2 := state.unpaired[vc1.mateId.value];
      && (PairStep(state, vc1, dictionary).Err? <==> MateAttribute(vc2) != vc1.id)
      && (PairStep(state, vc1, dictionary).Ok? ==>
            PairStep(state, vc1, dictionary).value ==
              PairingState(state.unpaired - {vc1.mateId.value}, state.pairs + [OrientPair(vc1, vc2, dictionary)]))
    ensures PairStep(state, vc1, dictionary).Ok? ==> WellFormed(PairStep(state, vc1, dictionary).value)
  {
  }

  /** One iteration's share of the count: it parks at most one record, or unparks one record
      and emits one pair. */
  lemma PairStepCounts(state: PairingState, vc1: BreakendRecord, dictionary: SequenceDictionary)
    requires WellFormed(state)
    ensures PairStep(state, vc1, dictionary).Ok? ==>
      var next := PairStep(state, vc1, dictionary).value;
      && WellFormed(next)
      && 2 * |next.pairs| + |next.unpaired| <= 2 * |state.pairs| + |state.unpaired| + 1
  {
    PairStepCases(state, vc1, dictionary);
    if PairStep(state, vc1, dictionary).Ok? && vc1.mateId.Some? {
      var next := PairStep(state, vc1, dictionary).value;
      var mate := vc1.mateId.value;
      if mate in state.unpaired {
        assert next.unpaired.Keys == state.unpaired.Keys - {mate};
        assert |next.unpaired| == |state.unpaired| - 1;
      } else {
        assert next.unpaired.Keys == state.unpaired.Keys + {vc1.id};
        assert |next.unpaired| <= |state.unpaired| + 1;
      }
    }
  }

  /** Each record is consumed at most once: a record is parked at most once and removed from the
      parked map when it is paired, so twice the number of pairs plus the number of parked
      records never exceeds the number of records seen. */
  lemma {:induction false} PairFromCounts(state: PairingState, records: seq<BreakendRecord>, dictionary: SequenceDictionary)
    requires WellFormed(state)
    ensures PairFrom(state, records, dictionary).Ok? ==>
      var final := PairFrom(state, records, dictionary).value;
      && WellFormed(final)
      && 2 * |final.pairs| + |final.unpaired| <= 2 * |state.pairs| + |state.unpaired| + |records|
    decreases |records|
  {
    if records != [] && PairStep(state, records[0], dictionary).Ok? {
      var next := PairStep(state, records[0], dictionary).value;
      PairStepCounts(state, records[0], dictionary);
      PairFromCounts(next, records[1..], dictionary);
    }
  }

  /** A mate mismatch met anywhere aborts the whole pairing: no later record can recover it. */
  lemma {:induction false} MismatchIsFatal(state: PairingState, records: seq<BreakendRecord>, dictionary: SequenceDictionary,
                                           k: nat, before: PairingState)
    requires k < |records|
    requires PairFrom(state, records[..k], dictionary) == Ok(before)
    requires PairStep(before, records[k], dictionary).Err?
    ensures PairFrom(state, records, dictionary) == Err(PairStep(before, records[k], dictionary).error)
    decreases k
  {
    if k > 0 {
      assert records[..k][0] == records[0];
      assert records[..k][1..] == records[1..][..k - 1];
      var next := PairStep(state, records[0], dictionary).value;
      MismatchIsFatal(next, records[1..], dictionary, k - 1, before);
    } else {
      assert PairFrom(state, records[..k], dictionary) == Ok(state);
    }
  }

  // Provenance of the pass: which records a pair or a mismatch comes from.

  /** Every parked record is one of the records seen so far. */
  ghost predicate ParkedFrom(state: PairingState, seen: seq<BreakendRecord>) {
    forall k :: k in state.unpaired ==> state.unpaired[k] in seen
  }

  /** `p` is the pair a record makes with an earlier record that it mates with. */
  ghost predicate PairedFrom(p: IntrachromosomalBreakpointPair, seen: seq<BreakendRecord>, dictionary: SequenceDictionary) {
    exists i, j :: 0 <= i < j < |seen| && IsBreakpointPair(seen[j], seen[i]) && p == OrientPair(seen[j], seen[i], dictionary)
  }

  /** Every emitted pair comes from two of the records seen so far. */
  ghost predicate EmittedFrom(state: PairingState, seen: seq<BreakendRecord>, dictionary: SequenceDictionary) {
    forall n :: 0 <= n < |state.pairs| ==> PairedFrom(state.pairs[n], seen, dictionary)
  }

  /** `e` reports a record whose MATEID names an earlier record carrying a MATEID that does not
      name it back. */
  ghost predicate MismatchFrom(e: PairingError, seen: seq<BreakendRecord>) {
    exists i, j :: 0 <= i < j < |seen| && e.current == seen[j] && e.parked == seen[i]
      && seen[j].mateId == Some(seen[i].id) && seen[i].mateId.Some? && MateAttribute(seen[i]) != seen[j].id
  }

  /** Reading more records keeps an emitted pair's origin. */
  lemma PairedFromExtends(p: IntrachromosomalBreakpointPair, seen: seq<BreakendRecord>, more: seq<BreakendRecord>,
                          dictionary: SequenceDictionary)
    requires PairedFrom(p, seen, dictionary)
    ensures PairedFrom(p, seen + more, dictionary)
  {
    var i, j :| 0 <= i < j < |seen| && IsBreakpointPair(seen[j], seen[i]) && p == OrientPair(seen[j], seen[i], dictionary);
    assert (seen + more)[i] == seen[i] && (seen + more)[j] == seen[j];
  }

  /** Reading more records keeps a mismatch's origin. */
  lemma MismatchFromExtends(e: PairingError, seen: seq<BreakendRecord>, more: seq<BreakendRecord>)
    requires MismatchFrom(e, seen)
    ensures MismatchFrom(e, seen + more)
  {
    var i, j :| 0 <= i < j < |seen| && e.current == seen[j] && e.parked == seen[i]
      && seen[j].mateId == Some(seen[i].id) && seen[i].mateId.Some? && MateAttribute(seen[i]) != seen[j].id;
    assert (seen + more)[i] == seen[i] && (seen + more)[j] == seen[j];
  }

  /** One iteration keeps the origin of the parked records and of the pairs, and a mismatch it
      raises comes from the current record and an earlier one. */
  lemma PairStepProvenance(state: PairingState, seen: seq<BreakendRecord>, vc1: BreakendRecord, dictionary: SequenceDictionary)
    requires WellFormed(state) && ParkedFrom(state, seen) && EmittedFrom(state, seen, dictionary)
    ensures PairStep(state, vc1, dictionary).Ok? ==>
      ParkedFrom(PairStep(state, vc1, dictionary).value, seen + [vc1]) &&
      EmittedFrom(PairStep(state, vc1, dictionary).value, seen + [vc1], dictionary)
    ensures PairStep(state, vc1, dictionary).Err? ==> MismatchFrom(PairStep(state, vc1, dictionary).error, seen + [vc1])
  {
    var extended := seen + [vc1];
    assert extended[|seen|] == vc1;
    forall n | 0 <= n < |state.pairs|
      ensures PairedFrom(state.pairs[n], extended, dictionary)
    {
      PairedFromExtends(state.pairs[n], seen, [vc1], dictionary);
    }
    if vc1.mateId.Some? && MateAttribute(vc1) in state.unpaired {
      var vc2 := state.unpaired[MateAttribute(vc1)];
      var i :| 0 <= i < |seen| && seen[i] == vc2;
      assert extended[i] == vc2;
      if IsBreakpointPair(vc1, vc2) {
        var next := PairStep(state, vc1, dictionary).value;
        assert next.pairs[|state.pairs|] == OrientPair(extended[|seen|], extended[i], dictionary);
        assert PairedFrom(next.pairs[|state.pairs|], extended, dictionary);
        assert forall n :: 0 <= n < |state.pairs| ==> next.pairs[n] == state.pairs[n];
      } else {
        assert MismatchFrom(MateAttributesDidNotMatch(vc1, vc2), extended);
      }
    }
  }

  /** The whole pass: every emitted pair comes from two mated input records, the later one read
      second, and a mismatch comes from an input record and an earlier one. */
  lemma {:induction false} PairFromProvenance(state: PairingState, seen: seq<BreakendRecord>, records: seq<BreakendRecord>,
                                              dictionary: SequenceDictionary)
    requires WellFormed(state) && ParkedFrom(state, seen) && EmittedFrom(state, seen, dictionary)
    ensures PairFrom(state, records, dictionary).Ok? ==> EmittedFrom(PairFrom(state, records, dictionary).value, seen + records, dictionary)
    ensures PairFrom(state, records, dictionary).Err? ==> MismatchFrom(PairFrom(state, records, dictionary).error, seen + records)
    decreases |records|
  {
    if records == [] {
      assert seen + records == seen;
    } else {
      PairStepCases(state, records[0], dictionary);
      PairStepProvenance(state, seen, records[0], dictionary);
      assert seen + [records[0]] + records[1..] == seen + records;
      match PairStep(state, records[0], dictionary)
      case Err(e) =>
        MismatchFromExtends(e, seen + [records[0]], records[1..]);
      case Ok(next) =>
        PairFromProvenance(next, seen + [records[0]], records[1..], dictionary);
    }
  }

  /** The count half of a pass from no parked records and no pairs: the count bound and ordered
      pairs. */
  lemma PassCounts(records: seq<BreakendRecord>, dictionary: SequenceDictionary)
    ensures var r := PairFrom(EmptyState, records, dictionary);
      r.Ok? ==> 2 * |r.value.pairs| <= |records| && WellFormed(r.value)
  {
    assert WellFormed(EmptyState);
    PairFromCounts(EmptyState, records, dictionary);
  }

  /** The provenance half of the pass from no parked records and no pairs. */
  lemma PassProvenance(records: seq<BreakendRecord>, dictionary: SequenceDictionary)
    ensures var r := PairFrom(EmptyState, records, dictionary);
      && (r.Ok? ==> EmittedFrom(r.value, records, dictionary))
      && (r.Err? ==> MismatchFrom(r.error, records))
  {
    assert WellFormed(EmptyState) && ParkedFrom(EmptyState, []) && EmittedFrom(EmptyState, [], dictionary);
    PairFromProvenance(EmptyState, [], records, dictionary);
    match PairFrom(EmptyState, records, dictionary)
    case Ok(final) => EmittedFromNothing(final, records, dictionary);
    case Err(e) => MismatchFromNothing(e, records);
  }

  /** Provenance from no earlier records is provenance from the records themselves. */
  lemma EmittedFromNothing(state: PairingState, records: seq<BreakendRecord>, dictionary: SequenceDictionary)
    requires EmittedFrom(state, [] + records, dictionary)
    ensures EmittedFrom(state, records, dictionary)
  {
    assert [] + records == records;
  }

  /** A mismatch traced to no earlier records plus `records` is traced to `records`. */
  lemma MismatchFromNothing(e: PairingError, records: seq<BreakendRecord>)
    requires MismatchFrom(e, [] + records)
    ensures MismatchFrom(e, records)
  {
    assert [] + records == records;
  }


  /** No two records share an ID. */
  ghost predicate DistinctIds(records: seq<BreakendRecord>) {
    forall i, j :: 0 <= i < j < |records| ==> records[i].id != records[j].id
  }

  /** Whenever a record names another record of the stream as its mate, that record names it
      back. */
  ghost predicate MatesAgree(records: seq<BreakendRecord>) {
    forall i, j :: 0 <= i < |records| && 0 <= j < |records| && records[i].mateId == Some(records[j].id) ==>
      records[j].mateId == Some(records[i].id)
  }

  /** Among the first `n` records, some record other than record `k` carries the ID that record `k`
      names as its mate. */
  ghost predicate MateSeen(records: seq<BreakendRecord>, n: nat, k: nat)
    requires n <= |records| && k < |records|
  {
    exists m :: 0 <= m < n && m != k && records[m].id == MateAttribute(records[k])
  }

  /** Every parked record is one of the first `n` records, stored under its own ID. */
  ghost predicate ParkedAreEarlier(state: PairingState, records: seq<BreakendRecord>, n: nat) {
    && n <= |records|
    && forall key :: key in state.unpaired ==>
         && state.unpaired[key].id == key
         && state.unpaired[key].mateId.Some?
         && exists k :: 0 <= k < n && records[k] == state.unpaired[key]
  }

  /** Every one of the first `n` records that has a MATEID whose mate has not been read yet is
      parked. */
  ghost predicate WaitingAreParked(state: PairingState, records: seq<BreakendRecord>, n: nat)
    requires n <= |records|
  {
    forall k :: 0 <= k < n && records[k].mateId.Some? && !MateSeen(records, n, k) ==>
      records[k].id in state.unpaired && state.unpaired[records[k].id] == records[k]
  }

  /** Every mutually mated couple among the first `n` records has had its pair emitted. */
  ghost predicate MutualPairsEmitted(state: PairingState, records: seq<BreakendRecord>, n: nat,
                                     dictionary: SequenceDictionary)
    requires n <= |records|
  {
    forall i, j :: 0 <= i < j < n && records[i].mateId == Some(records[j].id) && records[j].mateId == Some(records[i].id) ==>
      OrientPair(records[j], records[i], dictionary) in state.pairs
  }

  ghost predicate Complete(state: PairingState, records: seq<BreakendRecord>, n: nat, dictionary: SequenceDictionary) {
    && ParkedAreEarlier(state, records, n)
    && WaitingAreParked(state, records, n)
    && MutualPairsEmitted(state, records, n, dictionary)
  }

  /** A mate seen among the first `n` records stays seen after one more record. */
  lemma MateSeenGrows(records: seq<BreakendRecord>, n: nat)
    requires n < |records|
    ensures forall k :: 0 <= k < n && MateSeen(records, n, k) ==> MateSeen(records, n + 1, k)
  {
    forall k | 0 <= k < n && MateSeen(records, n, k) ensures MateSeen(records, n + 1, k) {
      var m :| 0 <= m < n && m != k && records[m].id == MateAttribute(records[k]);
    }
  }

  /** An earlier record that names record `n` as its mate is still waiting, so it is parked. */
  lemma MateOfNextIsParked(state: PairingState, records: seq<BreakendRecord>, n: nat, i: nat,
                           dictionary: SequenceDictionary)
    requires DistinctIds(records) && n < |records| && i < n
    requires Complete(state, records, n, dictionary)
    ensures records[i].mateId == Some(records[n].id) ==> records[i].id in state.unpaired
  {
    assert forall m :: 0 <= m < n ==> records[m].id != records[n].id;
  }

  /** With agreeing MATEIDs, a record whose mate is parked pairs with it, so the step succeeds. */
  lemma StepSucceeds(state: PairingState, records: seq<BreakendRecord>, n: nat, dictionary: SequenceDictionary)
    requires MatesAgree(records) && n < |records| && ParkedAreEarlier(state, records, n)
    ensures PairStep(state, records[n], dictionary).Ok?
  {
    var vc1 := records[n];
    if vc1.mateId.Some? && MateAttribute(vc1) in state.unpaired {
      var vc2 := state.unpaired[MateAttribute(vc1)];
      var k :| 0 <= k < n && records[k] == vc2;
      assert records[n].mateId == Some(records[k].id);
      assert IsBreakpointPair(vc1, vc2);
    }
  }

  /** Parked records stay earlier records stored under their own ID. */
  lemma ParkedStep(state: PairingState, records: seq<BreakendRecord>, n: nat, dictionary: SequenceDictionary)
    requires n < |records| && ParkedAreEarlier(state, records, n)
    ensures PairStep(state, records[n], dictionary).Ok? ==>
      ParkedAreEarlier(PairStep(state, records[n], dictionary).value, records, n + 1)
  {
    var vc1 := records[n];
    match PairStep(state, vc1, dictionary)
    case Err(_) =>
    case Ok(next) =>
      forall key | key in next.unpaired
        ensures exists k :: 0 <= k < n + 1 && records[k] == next.unpaired[key]
      {
        if key in state.unpaired && next.unpaired[key] == state.unpaired[key] {
          var k :| 0 <= k < n && records[k] == state.unpaired[key];
        } else {
          assert records[n] == next.unpaired[key];
        }
      }
  }

  /** A record whose mate is parked takes that mate out of the parked records; every other waiting
      record stays parked. */
  lemma WaitingOnMatch(state: PairingState, records: seq<BreakendRecord>, n: nat, dictionary: SequenceDictionary)
    requires DistinctIds(records) && MatesAgree(records) && n < |records|
    requires ParkedAreEarlier(state, records, n) && WaitingAreParked(state, records, n)
    requires records[n].mateId.Some? && MateAttribute(records[n]) in state.unpaired
    requires PairStep(state, records[n], dictionary).Ok?
    ensures WaitingAreParked(PairStep(state, records[n], dictionary).value, records, n + 1)
  {
    var mate := MateAttribute(records[n]);
    var k :| 0 <= k < n && records[k] == state.unpaired[mate];
    assert records[k].mateId == Some(records[n].id);
    var next := PairStep(state, records[n], dictionary).value;
    assert next.unpaired == state.unpaired - {mate};
    MateSeenGrows(records, n);
    assert MateSeen(records, n + 1, n);
    assert MateSeen(records, n + 1, k);
    forall k' | 0 <= k' < n + 1 && records[k'].mateId.Some? && !MateSeen(records, n + 1, k')
      ensures records[k'].id in next.unpaired && next.unpaired[records[k'].id] == records[k']
    {
      assert records[k'].id != records[k].id;
    }
  }

  /** A record that pairs with nothing is parked if it has a MATEID, and the records already
      waiting stay parked. */
  lemma WaitingOnNoMatch(state: PairingState, records: seq<BreakendRecord>, n: nat, dictionary: SequenceDictionary)
    requires DistinctIds(records) && n < |records|
    requires WaitingAreParked(state, records, n)
    requires records[n].mateId.None? || MateAttribute(records[n]) !in state.unpaired
    ensures WaitingAreParked(PairStep(state, records[n], dictionary).value, records, n + 1)
  {
    var vc1 := records[n];
    var next := PairStep(state, vc1, dictionary).value;
    assert next.unpaired == if vc1.mateId.None? then state.unpaired else state.unpaired[vc1.id := vc1];
    MateSeenGrows(records, n);
    forall k' | 0 <= k' < n && records[k'].mateId.Some? && !MateSeen(records, n + 1, k')
      ensures records[k'].id in next.unpaired && next.unpaired[records[k'].id] == records[k']
    {
      assert records[k'].id != vc1.id;
    }
  }

  /** A record whose mate is parked emits that couple's pair, the only new mutual couple. */
  lemma PairsOnMatch(state: PairingState, records: seq<BreakendRecord>, n: nat, dictionary: SequenceDictionary)
    requires DistinctIds(records) && n < |records|
    requires ParkedAreEarlier(state, records, n) && MutualPairsEmitted(state, records, n, dictionary)
    requires records[n].mateId.Some? && MateAttribute(records[n]) in state.unpaired
    requires PairStep(state, records[n], dictionary).Ok?
    ensures MutualPairsEmitted(PairStep(state, records[n], dictionary).value, records, n + 1, dictionary)
  {
    var mate := MateAttribute(records[n]);
    var k :| 0 <= k < n && records[k] == state.unpaired[mate];
    var next := PairStep(state, records[n], dictionary).value;
    assert next.pairs == state.pairs + [OrientPair(records[n], records[k], dictionary)];
    forall i, j | 0 <= i < j < n + 1 && records[i].mateId == Some(records[j].id) && records[j].mateId == Some(records[i].id)
      ensures OrientPair(records[j], records[i], dictionary) in next.pairs
    {
      if j < n {
        assert OrientPair(records[j], records[i], dictionary) in state.pairs;
      } else {
        assert records[i].id == records[k].id;
      }
    }
  }

  /** A record that emits no pair has no earlier mutual mate: one would have been parked. */
  lemma PairsOnNoMatch(state: PairingState, records: seq<BreakendRecord>, n: nat, dictionary: SequenceDictionary)
    requires DistinctIds(records) && MatesAgree(records) && n < |records|
    requires Complete(state, records, n, dictionary)
    requires records[n].mateId.None? || MateAttribute(records[n]) !in state.unpaired
    requires PairStep(state, records[n], dictionary).Ok?
    ensures MutualPairsEmitted(PairStep(state, records[n], dictionary).value, records, n + 1, dictionary)
  {
    assert PairStep(state, records[n], dictionary).value.pairs == state.pairs;
    forall i | 0 <= i < n ensures records[i].mateId != Some(records[n].id) || records[n].mateId != Some(records[i].id) {
      MateOfNextIsParked(state, records, n, i, dictionary);
    }
  }

  /** Reading one more record of a stream with distinct IDs and agreeing mates never fails and
      keeps every waiting record parked and every mutual couple paired. */
  lemma CompleteStep(state: PairingState, records: seq<BreakendRecord>, n: nat, dictionary: SequenceDictionary)
    requires DistinctIds(records) && MatesAgree(records) && n < |records|
    requires Complete(state, records, n, dictionary)
    ensures PairStep(state, records[n], dictionary).Ok?
    ensures Complete(PairStep(state, records[n], dictionary).value, records, n + 1, dictionary)
  {
    StepSucceeds(state, records, n, dictionary);
    ParkedStep(state, records, n, dictionary);
    if records[n].mateId.Some? && MateAttribute(records[n]) in state.unpaired {
      WaitingOnMatch(state, records, n, dictionary);
      PairsOnMatch(state, records, n, dictionary);
    } else {
      WaitingOnNoMatch(state, records, n, dictionary);
      PairsOnNoMatch(state, records, n, dictionary);
    }
  }

  /** Running the pass over `records + [vc1]` is running it over `records` and then one step. */
  lemma {:induction false} PairFromSnoc(state: PairingState, records: seq<BreakendRecord>, vc1: BreakendRecord,
                                        dictionary: SequenceDictionary)
    ensures PairFrom(state, records + [vc1], dictionary) ==
      match PairFrom(state, records, dictionary)
      case Err(e) => Err(e)
      case Ok(s) => PairStep(s, vc1, dictionary)
    decreases |records|
  {
    if records == [] {
      assert records + [vc1] == [vc1];
      assert [vc1][1..] == [];
    } else {
      assert (records + [vc1])[0] == records[0];
      assert (records + [vc1])[1..] == records[1..] + [vc1];
      match PairStep(state, records[0], dictionary)
      case Err(e) =>
      case Ok(next) => PairFromSnoc(next, records[1..], vc1, dictionary);
    }
  }

  /** After the first `n` records of a stream with distinct IDs and agreeing mates, the pass has
      not failed, every waiting record is parked and every mutual couple is paired. */
  lemma {:induction false} CompletePrefix(records: seq<BreakendRecord>, n: nat, dictionary: SequenceDictionary)
    requires DistinctIds(records) && MatesAgree(records) && n <= |records|
    ensures PairFrom(EmptyState, records[..n], dictionary).Ok?
    ensures Complete(PairFrom(EmptyState, records[..n], dictionary).value, records, n, dictionary)
  {
    if n == 0 {
      assert records[..0] == [];
    } else {
      CompletePrefix(records, n - 1, dictionary);
      var s := PairFrom(EmptyState, records[..n - 1], dictionary).value;
      CompleteStep(s, records, n - 1, dictionary);
      var next := PairStep(s, records[n - 1], dictionary).value;
      assert records[..n] == records[..n - 1] + [records[n - 1]];
      PairFromSnoc(EmptyState, records[..n - 1], records[n - 1], dictionary);
      assert PairFrom(EmptyState, records[..n], dictionary) == Ok(next);
    }
  }

  /** Completeness of the pass: on a stream with distinct IDs whose MATEIDs agree, it succeeds and
      emits the pair of every mutually mated couple, oriented with the later record first. */
  lemma MutualMatesArePaired(records: seq<BreakendRecord>, dictionary: SequenceDictionary)
    ensures DistinctIds(records) && MatesAgree(records) ==>
      && PairFrom(EmptyState, records, dictionary).Ok?
      && forall i, j :: 0 <= i < j < |records| && records[i].mateId == Some(records[j].id) && records[j].mateId == Some(records[i].id) ==>
           OrientPair(records[j], records[i], dictionary) in PairFrom(EmptyState, records, dictionary).value.pairs
  {
    if DistinctIds(records) && MatesAgree(records) {
      CompletePrefix(records, |records|, dictionary);
      assert records[..|records|] == records;
    }
  }

  /** `getIntrachromosomalBreakpointPairs`: the pairs emitted by one pass over the records, or the
      fatal mismatch. Every pair is ordered, is made by a record and an earlier record it mates
      with, and there are at most half as many pairs as records. A failure reports a record whose
      mate, read earlier, does not name it back. */
  function GetIntrachromosomalBreakpointPairs(records: seq<BreakendRecord>, dictionary: SequenceDictionary)
    : (r: Result<seq<IntrachromosomalBreakpointPair>, PairingError>)
    ensures r.Ok? ==> 2 * |r.value| <= |records|
    ensures r.Ok? ==> forall i :: 0 <= i < |r.value| ==> r.value[i].start <= r.value[i].end
    ensures r.Ok? ==> forall n :: 0 <= n < |r.value| ==> PairedFrom(r.value[n], records, dictionary)
    ensures r.Err? ==> MismatchFrom(r.error, records)
    ensures r.Err? <==> PairFrom(EmptyState, records, dictionary).Err?
    ensures DistinctIds(records) && MatesAgree(records) ==>
      && r.Ok?
      && forall i, j :: 0 <= i < j < |records| && records[i].mateId == Some(records[j].id) && records[j].mateId == Some(records[i].id) ==>
           OrientPair(records[j], records[i], dictionary) in r.value
  {
    PassCounts(records, dictionary);
    PassProvenance(records, dictionary);
    MutualMatesArePaired(records, dictionary);
    match PairFrom(EmptyState, records, dictionary)
    case Ok(final) => Ok(final.pairs)
    case Err(e) => Err(e)
  }

  /** Any two records with different IDs that name each other make exactly one pair, with the
      second record as the current one. */
  lemma AnyMutualMatesPair(a: BreakendRecord, b: BreakendRecord, dictionary: SequenceDictionary)
    requires a.id != b.id && a.mateId == Some(b.id) && b.mateId == Some(a.id)
    ensures GetIntrachromosomalBreakpointPairs([a, b], dictionary) == Ok([OrientPair(b, a, dictionary)])
  {
    var records := [a, b];
    assert DistinctIds(records) && MatesAgree(records);
    var pairs := GetIntrachromosomalBreakpointPairs(records, dictionary).value;
    assert OrientPair(records[1], records[0], dictionary) in pairs;
    assert |pairs| == 1;
    assert pairs == [OrientPair(b, a, dictionary)];
  }

  /** Two mutually mated records at positions 1000 and 2000 on contig 0 make exactly one pair
      `{contig 0, 1000, 2000}` carrying each record's contig names. */
  lemma MutualMatesMakeOnePair()
    ensures
      var a := BreakendRecord("A", Some("B"), "chr1", 1000, ["asm1"]);
      var b := BreakendRecord("B", Some("A"), "chr1", 2000, ["asm2"]);
      GetIntrachromosomalBreakpointPairs([a, b], map["chr1" := 0])
        == Ok([IntrachromosomalBreakpointPair(0, 1000, 2000, ["asm1"], ["asm2"])])
  {
    var a := BreakendRecord("A", Some("B"), "chr1", 1000, ["asm1"]);
    var b := BreakendRecord("B", Some("A"), "chr1", 2000, ["asm2"]);
    var dictionary := map["chr1" := 0];
    var s1 := PairingState(map["A" := a], []);
    assert PairStep(EmptyState, a, dictionary) == Ok(s1);
    assert s1.unpaired - {"A"} == map[];
    assert IsBreakpointPair(b, a);
    assert SequenceIndex(dictionary, "chr1") == 0;
    assert OrientPair(b, a, dictionary) == IntrachromosomalBreakpointPair(0, 1000, 2000, ["asm1"], ["asm2"]);
    assert MateAttribute(b) == "A" && "A" in s1.unpaired && s1.unpaired["A"] == a;
    assert s1.pairs + [OrientPair(b, a, dictionary)] == [IntrachromosomalBreakpointPair(0, 1000, 2000, ["asm1"], ["asm2"])];
    assert PairStep(s1, b, dictionary) == Ok(PairingState(map[], [IntrachromosomalBreakpointPair(0, 1000, 2000, ["asm1"], ["asm2"])]));
  }

  /** Record B names C as its mate and record A names B. When B comes first, A finds B parked and
      the mismatch is fatal; when A comes first, neither finds its mate parked and the pass ends
      with both parked, no pair and no error. */
  lemma MismatchDetectionDependsOnOrder()
    ensures
      var a := BreakendRecord("A", Some("B"), "chr1", 1000, []);
      var b := BreakendRecord("B", Some("C"), "chr1", 2000, []);
      && GetIntrachromosomalBreakpointPairs([b, a], map["chr1" := 0]).Err?
      && GetIntrachromosomalBreakpointPairs([a, b], map["chr1" := 0]) == Ok([])
  {
    var a := BreakendRecord("A", Some("B"), "chr1", 1000, []);
    var b := BreakendRecord("B", Some("C"), "chr1", 2000, []);
    var dictionary := map["chr1" := 0];
    assert PairStep(EmptyState, b, dictionary) == Ok(PairingState(map["B" := b], []));
    assert PairStep(PairingState(map["B" := b], []), a, dictionary).Err?;
    assert PairStep(EmptyState, a, dictionary) == Ok(PairingState(map["A" := a], []));
    assert PairStep(PairingState(map["A" := a], []), b, dictionary) == Ok(PairingState(map["A" := a, "B" := b], []));
  }

  /** Pairing never compares the two records' contigs: mates on different contigs still make a
      pair, placed on the contig of the record read second. */
  lemma MatesOnDifferentContigsArePaired()
    ensures
      var a := BreakendRecord("A", Some("B"), "chr1", 1000, []);
      var b := BreakendRecord("B", Some("A"), "chr2", 500, []);
      GetIntrachromosomalBreakpointPairs([a, b], map["chr1" := 0, "chr2" := 1])
        == Ok([IntrachromosomalBreakpointPair(1, 500, 1000, [], [])])
  {
    var a := BreakendRecord("A", Some("B"), "chr1", 1000, []);
    var b := BreakendRecord("B", Some("A"), "chr2", 500, []);
    var dictionary := map["chr1" := 0, "chr2" := 1];
    assert PairStep(EmptyState, a, dictionary) == Ok(PairingState(map["A" := a], []));
    assert map["A" := a] - {"A"} == map[];
    assert IsBreakpointPair(b, a);
    assert SequenceIndex(dictionary, "chr2") == 1;
    assert OrientPair(b, a, dictionary) == IntrachromosomalBreakpointPair(1, 500, 1000, [], []);
    assert MateAttribute(b) == "A" && "A" in map["A" := a] && map["A" := a]["A"] == a;
    assert [] + [OrientPair(b, a, dictionary)] == [IntrachromosomalBreakpointPair(1, 500, 1000, [], [])];
    assert PairStep(PairingState(map["A" := a], []), b, dictionary)
      == Ok(PairingState(map[], [IntrachromosomalBreakpointPair(1, 500, 1000, [], [])]));
  }
}
