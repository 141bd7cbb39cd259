/** The authoritative book as a value (src/book.rs, src/state.rs): its state, what each
    input does to it, and the deliveries it puts on the stream. */
module Book {
  import opened Prelude
  import opened Decimals
  import opened Complement
  import opened Coordinates
  import opened Observation

  type Levels = map<Coordinate, Quantity>

  // ---------------------------------------------------------------------------------
  // State
  // ---------------------------------------------------------------------------------

  datatype AuthorityReason =
    | AuthorityGap | Disconnect | SubscriptionLost | AuthorityLocalLoss
    | OrderingUnknown | Overload | ReplicaDivergence | RecoveryBaseUnavailable

  datatype AuthorityState =
    | Unsubscribed | Subscribing | Synchronizing | Live | Recovering | Stale(reason: AuthorityReason)

  datatype ContinuityReason = Overrun | Gap | LocalLoss | Reconnect | RecoveryBase | SyncDivergence

  datatype ReplicaError = EpochOverflow | InvalidTransition

  datatype Continuity =
    | Intact(epoch: nat, nextPosition: nat)
    | Lost(epoch: nat, reason: ContinuityReason)
  {
    /** `MutationContinuity::lost`: the first reason stands. */
    function Lose(reason: ContinuityReason): Continuity {
      if Intact? then Lost(epoch, reason) else this
    }

    /** `MutationContinuity::recovered`. */
    function Recover(first: nat): Result<Continuity, ReplicaError> {
      if Intact? then Failure(InvalidTransition)
      else if epoch == U64_MAX then Failure(EpochOverflow)
      else Success(Intact(epoch + 1, first))
    }

    /** `MutationContinuity::advanced`. */
    function Advance(emitted: nat): Result<Continuity, ReplicaError> {
      if Lost? then Failure(InvalidTransition)
      else if nextPosition + emitted > U64_MAX then Failure(EpochOverflow)
      else Success(Intact(epoch, nextPosition + emitted))
    }
  }

  datatype BookState = BookState(
    market: MarketRef,
    levels: Levels,
    authority: AuthorityState,
    continuity: Continuity,
    revision: nat,
    provenance: Option<Provenance>,
    deltaRail: bool,
    deltasSinceSnapshot: nat,
    syncDivergences: nat)

  function NewBook(market: MarketRef): BookState {
    BookState(market, map[], Synchronizing, Intact(0, 0), 0, None, false, 0, 0)
  }

  datatype BookError =
    | MarketMismatch
    | UnsupportedCandidateOperation
    | DuplicateLevelCoordinate
    | EmptyDelta
    | NoEstablishedBase
    | ContinuityLost
    | CounterOverflow
    | ContinuityFailed(replica: ReplicaError)
    | ProvenanceFailed(descriptor: DescriptorError)
    | MutationFailed(observation: ObservationError)
    | NonComplementablePrice(decimal: DecimalError)

  // ---------------------------------------------------------------------------------
  // The stream
  // ---------------------------------------------------------------------------------

  datatype Cursor = Cursor(epoch: nat, position: nat)

  predicate Precedes(a: Cursor, b: Cursor) {
    a.epoch < b.epoch || (a.epoch == b.epoch && a.position < b.position)
  }

  datatype Record = Record(cursor: Cursor, mutation: Mutation)

  datatype Commit = Commit(
    revision: nat,
    epoch: nat,
    recoveryBase: bool,
    deltasInvalidated: Option<nat>,
    records: seq<Record>)

  /** One entry of the delivery lane; a resolution's payload is opaque to the book. */
  datatype Delivery =
    | Mutated(revision: nat, cursor: Cursor, mutation: Mutation)
    | Resolved(revision: nat, cursor: Cursor, resolution: string)

  function Deliveries(revision: nat, records: seq<Record>): seq<Delivery> {
    seq(|records|, i requires 0 <= i < |records| => Mutated(revision, records[i].cursor, records[i].mutation))
  }

  // ---------------------------------------------------------------------------------
  // Level maps
  // ---------------------------------------------------------------------------------

  function Get(m: Levels, c: Coordinate): Option<Quantity> {
    if c in m then Some(m[c]) else None
  }

  function Put(m: Levels, c: Coordinate, q: Option<Quantity>): Levels {
    if q.Some? then m[c := q.value] else m - {c}
  }

  /** The entries that rest a nonzero quantity. */
  function Resting(m: Levels): Levels {
    map c | c in m && m[c].coefficient != 0 :: m[c]
  }

  predicate EconomicallyEqual(left: Levels, right: Levels) {
    Resting(left) == Resting(right)
  }

  /** The delta grammar: a zero quantity removes. */
  function DeltaValue(q: Quantity): Option<Quantity> {
    if q.coefficient == 0 then None else Some(q)
  }

  // ---------------------------------------------------------------------------------
  // Admission of a level list
  // ---------------------------------------------------------------------------------

  /** `complement_price`'s refusal, in the closed form `ComplementShape` establishes. */
  function Refusal(p: Price): Option<DecimalError> {
    if p.scale > 38 then Some(ArithmeticOverflow)
    else if p.coefficient > Pow10(p.scale) then Some(NegativeForbidden)
    else None
  }

  /** The level list as a map, or the first defect met in list order. */
  function Admit(levels: seq<Level>): Result<Levels, BookError> {
    if levels == [] then Success(map[])
    else
      var m :- Admit(levels[..|levels| - 1]);
      var last := levels[|levels| - 1];
      match Refusal(last.at.price)
      case Some(error) => Failure(NonComplementablePrice(error))
      case None =>
        if last.at in m then Failure(DuplicateLevelCoordinate)
        else Success(m[last.at := last.quantity])
  }

  // ---------------------------------------------------------------------------------
  // Emission of mutations
  // ---------------------------------------------------------------------------------

  datatype Change = Change(at: Coordinate, before: Option<Quantity>, after: Option<Quantity>)

  function LevelAt(c: Coordinate, q: Option<Quantity>): Option<Level> {
    if q.Some? then Some(Level(c, q.value)) else None
  }

  function NewMutation(kind: Rebase, p: Provenance, change: Change): Result<Mutation, ObservationError> {
    var before, after := LevelAt(change.at, change.before), LevelAt(change.at, change.after);
    if kind == DerivedDiff then DerivedMutation(p, before, after) else ReportedMutation(p, before, after)
  }

  datatype Stamp = Stamp(source: Provenance, revision: nat, epoch: nat, first: nat, kind: Rebase)

  function EmitOne(change: Change, stamp: Stamp, emitted: nat): Result<Record, BookError> {
    if stamp.first + emitted > U64_MAX then Failure(CounterOverflow)
    else
      match RebaseProvenance(stamp.source, stamp.revision, stamp.epoch, stamp.kind)
      case Failure(error) => Failure(ProvenanceFailed(error))
      case Success(p) =>
        match NewMutation(stamp.kind, p, change)
        case Failure(error) => Failure(MutationFailed(error))
        case Success(mutation) => Success(Record(Cursor(stamp.epoch, stamp.first + emitted), mutation))
  }

  /** One record per change that changes something, in list order. */
  function Emit(changes: seq<Change>, stamp: Stamp): Result<seq<Record>, BookError> {
    if changes == [] then Success([])
    else
      var records :- Emit(changes[..|changes| - 1], stamp);
      var last := changes[|changes| - 1];
      if last.before == last.after then Success(records)
      else
        var record :- EmitOne(last, stamp, |records|);
        Success(records + [record])
  }

  function ChangesAt(coordinates: seq<Coordinate>, previous: Levels, next: Levels): seq<Change> {
    seq(|coordinates|, i requires 0 <= i < |coordinates| =>
      Change(coordinates[i], Get(previous, coordinates[i]), Get(next, coordinates[i])))
  }

  /** Every coordinate of either map, ascending, with its value in both. */
  ghost function DiffChanges(previous: Levels, next: Levels): seq<Change> {
    ChangesAt(Sorted(previous.Keys + next.Keys), previous, next)
  }

  /** Every delta level in the venue's order, with the value held and the value reported. */
  function DeltaChanges(held: Levels, levels: seq<Level>): seq<Change> {
    seq(|levels|, i requires 0 <= i < |levels| =>
      Change(levels[i].at, Get(held, levels[i].at), DeltaValue(levels[i].quantity)))
  }

  /** The delta folded into the map. */
  function Fold(m: Levels, levels: seq<Level>): Levels {
    if levels == [] then m
    else
      var last := levels[|levels| - 1];
      Put(Fold(m, levels[..|levels| - 1]), last.at, DeltaValue(last.quantity))
  }

  // ---------------------------------------------------------------------------------
  // The five operations
  // ---------------------------------------------------------------------------------

  datatype Accepted = Accepted(book: BookState, commit: Commit)

  predicate Diverges(b: BookState, next: Levels) {
    b.deltaRail && b.continuity.Intact? && !EconomicallyEqual(b.levels, next)
  }

  /** The continuity a snapshot commits under: recovered when the stream is lost, or is
      lost by this very snapshot's divergence. */
  function Rebased(continuity: Continuity, diverges: bool): Result<Continuity, ReplicaError> {
    var broken := if diverges then continuity.Lose(SyncDivergence) else continuity;
    if broken.Lost? then broken.Recover(0) else Success(broken)
  }

  /** Whether a snapshot's differences are derived as mutations. */
  predicate Derives(b: BookState) {
    b.continuity.Intact? && b.provenance.Some? && !b.deltaRail
  }

  function MapError<T>(r: Result<T, ReplicaError>): Result<T, BookError> {
    if r.Success? then Success(r.value) else Failure(ContinuityFailed(r.error))
  }

  function LatestProvenance(source: Provenance, revision: nat, epoch: nat): Result<Provenance, BookError> {
    match RebaseProvenance(source, revision, epoch, LatestState)
    case Success(p) => Success(p)
    case Failure(error) => Failure(ProvenanceFailed(error))
  }

  datatype Prepared = Prepared(records: seq<Record>, provenance: Provenance, continuity: Continuity)

  /** The tail both commit paths share before anything is stored: count the emitted
      records, refresh the published provenance, advance the stream.  `full` is a counter
      of the commit's own that cannot be incremented. */
  function Prepare(
      records: Result<seq<Record>, BookError>, full: bool, source: Provenance, revision: nat, continuity: Continuity)
    : Result<Prepared, BookError>
  {
    var emitted :- records;
    if |emitted| > U64_MAX || full then Failure(CounterOverflow)
    else
      var provenance :- LatestProvenance(source, revision, continuity.epoch);
      var advanced :- MapError(continuity.Advance(|emitted|));
      Success(Prepared(emitted, provenance, advanced))
  }

  ghost function SnapshotRecords(b: BookState, next: Levels, source: Provenance, continuity: Continuity)
    : Result<seq<Record>, BookError>
    requires continuity.Intact?
  {
    if !Derives(b) then Success([])
    else Emit(DiffChanges(b.levels, next),
              Stamp(source, b.revision + 1, continuity.epoch, continuity.nextPosition, DerivedDiff))
  }

  /** `OrderBook::apply_snapshot`. */
  ghost function SnapshotOutcome(b: BookState, c: Candidate): Result<Accepted, BookError> {
    if c.provenance.market != b.market then Failure(MarketMismatch)
    else if !c.operation.Snapshot? then Failure(UnsupportedCandidateOperation)
    else
      var next :- Admit(c.operation.levels);
      if b.revision == U64_MAX then Failure(CounterOverflow)
      else if Diverges(b, next) && b.syncDivergences == U64_MAX then Failure(CounterOverflow)
      else
        var continuity :- MapError(Rebased(b.continuity, Diverges(b, next)));
        CommitSnapshot(b, c.provenance, next, continuity)
  }

  ghost function CommitSnapshot(b: BookState, source: Provenance, next: Levels, continuity: Continuity)
    : Result<Accepted, BookError>
    requires continuity.Intact?
  {
    var prepared :- Prepare(SnapshotRecords(b, next, source, continuity), false, source, b.revision + 1, continuity);
    var diverges := Diverges(b, next);
    Success(Accepted(
      b.(levels := next, authority := Live, continuity := prepared.continuity, revision := b.revision + 1,
         provenance := Some(prepared.provenance), deltasSinceSnapshot := 0,
         syncDivergences := b.syncDivergences + if diverges then 1 else 0),
      Commit(b.revision + 1, continuity.epoch, b.continuity.Lost? || diverges,
             if diverges then Some(b.deltasSinceSnapshot) else None, prepared.records)))
  }

  /** `OrderBook::apply_source_delta`. */
  function DeltaOutcome(b: BookState, c: Candidate): Result<Accepted, BookError> {
    if c.provenance.market != b.market then Failure(MarketMismatch)
    else if !c.operation.SourceDelta? then Failure(UnsupportedCandidateOperation)
    else if c.operation.levels == [] then Failure(EmptyDelta)
    else if b.provenance.None? then Failure(NoEstablishedBase)
    else if b.continuity.Lost? then Failure(ContinuityLost)
    else
      var _ :- Admit(c.operation.levels);
      if b.revision == U64_MAX then Failure(CounterOverflow)
      else CommitDelta(b, c.provenance, c.operation.levels)
  }

  function DeltaRecords(b: BookState, source: Provenance, levels: seq<Level>): Result<seq<Record>, BookError>
    requires b.continuity.Intact?
  {
    Emit(DeltaChanges(b.levels, levels),
         Stamp(source, b.revision + 1, b.continuity.epoch, b.continuity.nextPosition, SourceReportedDiff))
  }

  function CommitDelta(b: BookState, source: Provenance, levels: seq<Level>): Result<Accepted, BookError>
    requires b.continuity.Intact?
  {
    var prepared :- Prepare(DeltaRecords(b, source, levels), b.deltasSinceSnapshot == U64_MAX,
                            source, b.revision + 1, b.continuity);
    Success(Accepted(
      b.(levels := Fold(b.levels, levels), authority := Live, continuity := prepared.continuity,
         revision := b.revision + 1, provenance := Some(prepared.provenance), deltaRail := true,
         deltasSinceSnapshot := b.deltasSinceSnapshot + 1),
      Commit(b.revision + 1, b.continuity.epoch, false, None, prepared.records)))
  }

  /** `OrderBook::unsubscribe`: the new state when something changed. */
  function UnsubscribeOutcome(b: BookState): Result<Option<BookState>, BookError> {
    if b.authority == Unsubscribed then Success(None)
    else if b.revision == U64_MAX then Failure(CounterOverflow)
    else Success(Some(b.(revision := b.revision + 1, authority := Unsubscribed)))
  }

  /** `OrderBook::report_continuity_loss`: the new state when something changed. */
  function LossOutcome(b: BookState, continuity: ContinuityReason, authority: AuthorityReason)
    : Result<Option<BookState>, BookError>
  {
    var next := b.(continuity := b.continuity.Lose(continuity), authority := Stale(authority));
    if next == b then Success(None)
    else if b.revision == U64_MAX then Failure(CounterOverflow)
    else Success(Some(next.(revision := b.revision + 1)))
  }

  /** `OrderBook::note_stream_event`. */
  function StreamEventOutcome(b: BookState): Result<(BookState, Cursor), BookError> {
    if b.continuity.Lost? then Failure(ContinuityLost)
    else
      var advanced :- MapError(b.continuity.Advance(1));
      Success((b.(continuity := advanced), Cursor(b.continuity.epoch, b.continuity.nextPosition)))
  }

  // ---------------------------------------------------------------------------------
  // Inputs and steps
  // ---------------------------------------------------------------------------------

  datatype Input =
    | ApplySnapshot(candidate: Candidate)
    | ApplyDelta(candidate: Candidate)
    | ReportLoss(continuity: ContinuityReason, authority: AuthorityReason)
    | Unsubscribe
    | Resolve(resolution: string)

  /** What one input leaves behind: the book, the deliveries it allocated, and the commit
      when a candidate was accepted.  A refused input changes nothing. */
  datatype Effect = Effect(book: BookState, deliveries: seq<Delivery>, commit: Option<Commit>)

  ghost predicate IsInput(i: Input) {
    i.ApplySnapshot? || i.ApplyDelta? ==> IsCandidate(i.candidate)
  }

  function CommitEffect(b: BookState, r: Result<Accepted, BookError>): Effect {
    if r.Failure? then Effect(b, [], None)
    else Effect(r.value.book, Deliveries(r.value.commit.revision, r.value.commit.records), Some(r.value.commit))
  }

  function QuietEffect(b: BookState, r: Result<Option<BookState>, BookError>): Effect {
    if r.Success? && r.value.Some? then Effect(r.value.value, [], None) else Effect(b, [], None)
  }

  ghost function Step(b: BookState, i: Input): Effect {
    match i
    case ApplySnapshot(c) => CommitEffect(b, SnapshotOutcome(b, c))
    case ApplyDelta(c) => CommitEffect(b, DeltaOutcome(b, c))
    case ReportLoss(continuity, authority) => QuietEffect(b, LossOutcome(b, continuity, authority))
    case Unsubscribe => QuietEffect(b, UnsubscribeOutcome(b))
    case Resolve(resolution) =>
      var r := StreamEventOutcome(b);
      if r.Failure? then Effect(b, [], None)
      else Effect(r.value.0, [Resolved(b.revision, r.value.1, resolution)], None)
  }

  // ---------------------------------------------------------------------------------
  // Replay
  // ---------------------------------------------------------------------------------

  function ApplyMutation(m: Levels, mutation: Mutation): Levels {
    if mutation.after.Some? then m[mutation.after.value.at := mutation.after.value.quantity]
    else if mutation.before.Some? then m - {mutation.before.value.at}
    else m
  }

  /** What a consumer obtains by applying deliveries, in order, to the levels it holds. */
  function Replay(m: Levels, deliveries: seq<Delivery>): Levels {
    if deliveries == [] then m
    else
      var last := deliveries[|deliveries| - 1];
      var before := Replay(m, deliveries[..|deliveries| - 1]);
      if last.Mutated? then ApplyMutation(before, last.mutation) else before
  }
}
