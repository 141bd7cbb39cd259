/** Provenance, candidates and mutations (src/descriptor.rs, src/observation.rs): the
    values a venue report carries, with the constructors that admit them. */
module Observation {
  import opened Prelude
  import opened Complement
  import opened Coordinates

  const MAX_SOURCE_EVIDENCE: nat := 64

  datatype MarketRef = MarketRef(venue: string, kind: string, key: string)

  datatype Representation = VenueNative | Normalized

  datatype Origin = SourceReported | NormalizedFromSource | SnapshotDiff

  datatype Replica = PublishingPrimary | HotStandby | Recovery

  datatype DescriptorError = InvalidSourceEvidence | EvidenceCapacityExceeded

  datatype ObservationError =
    | LevelCapacityExceeded
    | InvalidOrigin
    | EmptyMutation
    | MismatchedMutationCoordinate

  /** Where a report came from; `evidence` holds the venue's lexemes. */
  datatype Provenance = Provenance(
    market: MarketRef,
    outcome: Option<string>,
    nativeFamily: string,
    sourceTimestamp: Option<string>,
    evidence: seq<string>,
    daemonGeneration: nat,
    connection: (string, nat),
    subscriptionGeneration: nat,
    receivePosition: nat,
    commitPosition: nat,
    receiveTime: nat,
    commitTime: nat,
    replica: Replica,
    representation: Representation,
    origin: Origin,
    localRevision: nat,
    continuityEpoch: nat)

  predicate CompatibleLabels(representation: Representation, origin: Origin) {
    match origin
    case SourceReported => representation == VenueNative
    case NormalizedFromSource => representation == Normalized
    case SnapshotDiff => representation == Normalized
  }

  predicate IsProvenance(p: Provenance) {
    && 0 < |p.nativeFamily| <= 256
    && (forall i :: 0 <= i < |p.evidence| ==> 0 < |p.evidence[i]| <= 1024)
    && p.receivePosition <= p.commitPosition
    && p.receiveTime <= p.commitTime
    && CompatibleLabels(p.representation, p.origin)
  }

  /** `SourceEvidenceCapacity::new`, `BoundedSourceEvidence::new` and `Provenance::new`
      in sequence, the capacity being the evidence's own length. */
  function NewProvenance(p: Provenance): Result<Provenance, DescriptorError> {
    if |p.evidence| > MAX_SOURCE_EVIDENCE then Failure(EvidenceCapacityExceeded)
    else if !IsProvenance(p) then Failure(InvalidSourceEvidence)
    else Success(p)
  }

  /** `BoundedSourceEvidence::new`: all the values, or a refusal once one more than
      `capacity` has been offered. */
  method BoundEvidence(values: seq<string>, capacity: nat) returns (r: Result<seq<string>, DescriptorError>)
    ensures r == if |values| <= capacity then Success(values) else Failure(EvidenceCapacityExceeded)
  {
    var collected := [];
    for i := 0 to |values|
      invariant collected == values[..i]
      invariant i <= capacity
    {
      if |collected| == capacity {
        return Failure(EvidenceCapacityExceeded);
      }
      collected := collected + [values[i]];
    }
    assert values[..|values|] == values;
    return Success(collected);
  }

  /** The three pairings of representation and origin that mean something. */
  ghost predicate MeaningfulLabels(p: Provenance) {
    || (p.representation == VenueNative && p.origin == SourceReported)
    || (p.representation == Normalized && p.origin == NormalizedFromSource)
    || (p.representation == Normalized && p.origin == SnapshotDiff)
  }

  /** Building a provenance from its evidence: exactly when the family and every piece of
      evidence have a length within bounds, nothing was committed before it was received,
      and the labels pair. */
  method BuildProvenance(p: Provenance) returns (r: Result<Provenance, DescriptorError>)
    ensures r == NewProvenance(p)
    ensures r.Success? <==>
      && |p.evidence| <= 64
      && 1 <= |p.nativeFamily| <= 256
      && (forall value :: value in p.evidence ==> 1 <= |value| <= 1024)
      && p.receivePosition <= p.commitPosition && p.receiveTime <= p.commitTime
      && MeaningfulLabels(p)
    ensures r.Success? ==> r.value == p
    ensures r.Failure? ==> r.error == if |p.evidence| > 64 then EvidenceCapacityExceeded else InvalidSourceEvidence
  {
    var evidence := BoundEvidence(p.evidence, MAX_SOURCE_EVIDENCE);
    if evidence.Failure? {
      return Failure(evidence.error);
    }
    var sized := true;
    for i := 0 to |p.evidence|
      invariant sized <==> forall k :: 0 <= k < i ==> 0 < |p.evidence[k]| <= 1024
    {
      sized := sized && 0 < |p.evidence[i]| <= 1024;
    }
    if 0 < |p.nativeFamily| <= 256 && sized && p.receivePosition <= p.commitPosition && p.receiveTime <= p.commitTime
       && CompatibleLabels(p.representation, p.origin) {
      return Success(p);
    }
    return Failure(InvalidSourceEvidence);
  }

  datatype Level = Level(at: Coordinate, quantity: Quantity)

  datatype Operation = Snapshot(levels: seq<Level>) | SourceDelta(levels: seq<Level>)

  datatype Candidate = Candidate(provenance: Provenance, operation: Operation)

  /** `BoundedLevels::new`: all the levels, or a refusal once one more than `capacity`
      has been offered. */
  method BoundLevels(levels: seq<Level>, capacity: nat) returns (r: Result<seq<Level>, ObservationError>)
    ensures r == if |levels| <= capacity then Success(levels) else Failure(LevelCapacityExceeded)
  {
    var collected := [];
    for i := 0 to |levels|
      invariant collected == levels[..i]
      invariant i <= capacity
    {
      if |collected| == capacity {
        return Failure(LevelCapacityExceeded);
      }
      collected := collected + [levels[i]];
    }
    assert levels[..|levels|] == levels;
    return Success(collected);
  }

  /** `Candidate::snapshot`. */
  function SnapshotCandidate(p: Provenance, levels: seq<Level>): Result<Candidate, ObservationError> {
    if p.origin == SnapshotDiff then Failure(InvalidOrigin)
    else Success(Candidate(p, Snapshot(levels)))
  }

  /** `Candidate::source_delta`. */
  function DeltaCandidate(p: Provenance, levels: seq<Level>): Result<Candidate, ObservationError> {
    if !(p.representation == VenueNative && p.origin == SourceReported) then Failure(InvalidOrigin)
    else Success(Candidate(p, SourceDelta(levels)))
  }

  /** The candidates that exist: built by one of the two constructors from a provenance
      that `NewProvenance` admitted. */
  ghost predicate IsCandidate(c: Candidate) {
    && NewProvenance(c.provenance) == Success(c.provenance)
    && (|| SnapshotCandidate(c.provenance, c.operation.levels) == Success(c)
        || DeltaCandidate(c.provenance, c.operation.levels) == Success(c))
  }

  /** Which candidates exist, by their labels: any admitted provenance but a derived one
      for a snapshot, only the venue's own report for a delta. */
  lemma {:induction false} CandidatesByLabel(c: Candidate)
    ensures IsCandidate(c) <==>
      && NewProvenance(c.provenance) == Success(c.provenance)
      && (c.operation.Snapshot? ==> c.provenance.origin != SnapshotDiff)
      && (c.operation.SourceDelta? ==>
            c.provenance.origin == SourceReported && c.provenance.representation == VenueNative)
  {
  }

  datatype Mutation = Mutation(provenance: Provenance, before: Option<Level>, after: Option<Level>)

  function CoordinateChange(p: Provenance, before: Option<Level>, after: Option<Level>)
    : Result<Mutation, ObservationError>
  {
    if before.None? && after.None? then Failure(EmptyMutation)
    else if before.Some? && after.Some? && before.value.at != after.value.at then Failure(MismatchedMutationCoordinate)
    else Success(Mutation(p, before, after))
  }

  /** `BookMutation::snapshot_diff`. */
  function DerivedMutation(p: Provenance, before: Option<Level>, after: Option<Level>)
    : Result<Mutation, ObservationError>
  {
    if p.origin != SnapshotDiff || p.representation != Normalized then Failure(InvalidOrigin)
    else CoordinateChange(p, before, after)
  }

  /** `BookMutation::source_reported`. */
  function ReportedMutation(p: Provenance, before: Option<Level>, after: Option<Level>)
    : Result<Mutation, ObservationError>
  {
    if p.origin != SourceReported then Failure(InvalidOrigin)
    else CoordinateChange(p, before, after)
  }

  // ---------------------------------------------------------------------------------
  // Rebasing provenance onto the book's own revision and epoch
  // ---------------------------------------------------------------------------------

  datatype Rebase = LatestState | SourceReportedDiff | DerivedDiff

  const DERIVED_FAMILY := "derived.snapshot-diff"

  /** `rebase_provenance`. */
  function RebaseProvenance(source: Provenance, revision: nat, epoch: nat, kind: Rebase)
    : Result<Provenance, DescriptorError>
  {
    var based := source.(localRevision := revision, continuityEpoch := epoch);
    NewProvenance(
      if kind == DerivedDiff then
        based.(nativeFamily := DERIVED_FAMILY, sourceTimestamp := None, evidence := [],
               representation := Normalized, origin := SnapshotDiff)
      else based)
  }

  /** Rebasing the provenance of a candidate never fails and changes nothing the venue
      reported, except that a derived difference is relabelled as this daemon's own. */
  lemma {:induction false} RebaseIsTotal(source: Provenance, revision: nat, epoch: nat, kind: Rebase)
    requires NewProvenance(source) == Success(source)
    ensures var r := RebaseProvenance(source, revision, epoch, kind);
            && r.Success?
            && NewProvenance(r.value) == Success(r.value)
            && r.value.market == source.market
            && r.value.connection == source.connection
            && r.value.localRevision == revision
            && r.value.continuityEpoch == epoch
            && (kind != DerivedDiff ==>
                  r.value == source.(localRevision := revision, continuityEpoch := epoch))
            && (kind == DerivedDiff ==>
                  r.value == source.(localRevision := revision, continuityEpoch := epoch,
                                     nativeFamily := "derived.snapshot-diff", sourceTimestamp := None, evidence := [],
                                     representation := Normalized, origin := SnapshotDiff))
  {
    assert |DERIVED_FAMILY| == 21;
  }
}
