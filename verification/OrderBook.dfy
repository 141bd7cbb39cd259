/** The single-writer book object (src/book.rs): its fields are updated in place, each
    method proved against the value-level outcome of the same operation. */
module OrderBooks {
  import opened Prelude
  import opened Complement
  import opened Coordinates
  import opened Observation
  import opened Book
  import opened BookSteps
  import opened Published

  /** Collects a level list into a map, refusing at the first defect. */
  method AdmitLevels(levels: seq<Level>) returns (r: Result<Levels, BookError>)
    ensures r == Admit(levels)
  {
    var m: Levels := map[];
    for i := 0 to |levels|
      invariant Admit(levels[..i]) == Success(m)
    {
      var level := levels[i];
      var seen := levels[..i + 1];
      assert seen[..i] == levels[..i];
      RefusalIsComplement(level.at.price);
      var complement := ComplementPrice(level.at.price);
      if complement.Failure? {
        AdmitFailsEarly(levels, i + 1);
        return Failure(NonComplementablePrice(complement.error));
      }
      if level.at in m {
        AdmitFailsEarly(levels, i + 1);
        return Failure(DuplicateLevelCoordinate);
      }
      m := m[level.at := level.quantity];
    }
    assert levels[..|levels|] == levels;
    return Success(m);
  }

  /** The emitting loop of both commit paths: one record for each entry that changes. */
  method EmitAll(changes: seq<Change>, stamp: Stamp) returns (r: Result<seq<Record>, BookError>)
    ensures r == Emit(changes, stamp)
  {
    var records: seq<Record> := [];
    for i := 0 to |changes|
      invariant Emit(changes[..i], stamp) == Success(records)
    {
      ghost var seen := changes[..i + 1];
      assert seen[..i] == changes[..i];
      if changes[i].before != changes[i].after {
        var record := EmitOne(changes[i], stamp, |records|);
        if record.Failure? {
          EmitFailsEarly(changes, stamp, i + 1);
          return Failure(record.error);
        }
        records := records + [record.value];
      }
    }
    assert changes[..|changes|] == changes;
    return Success(records);
  }

  /** `derive_mutations`: every coordinate of either map in ascending order, each once. */
  method DeriveMutations(previous: Levels, next: Levels, stamp: Stamp) returns (r: Result<seq<Record>, BookError>)
    ensures r == Emit(DiffChanges(previous, next), stamp)
  {
    var coordinates := Sort(previous.Keys + next.Keys);
    AscendingIsUnique(coordinates, Sorted(previous.Keys + next.Keys));
    r := EmitAll(ChangesAt(coordinates, previous, next), stamp);
  }

  class OrderBook {
    var market: MarketRef
    var levels: Levels
    var authority: AuthorityState
    var continuity: Continuity
    var revision: nat
    var provenance: Option<Provenance>
    var deltaRail: bool
    var deltasSinceSnapshot: nat
    var syncDivergences: nat

    ghost function State(): BookState
      reads this
    {
      BookState(market, levels, authority, continuity, revision, provenance,
                deltaRail, deltasSinceSnapshot, syncDivergences)
    }

    constructor (market: MarketRef)
      ensures State() == NewBook(market)
    {
      this.market := market;
      levels := map[];
      authority := Synchronizing;
      continuity := Intact(0, 0);
      revision := 0;
      provenance := None;
      deltaRail := false;
      deltasSinceSnapshot := 0;
      syncDivergences := 0;
    }

    /** Commits a complete snapshot, or refuses it and leaves every field alone. */
    method ApplySnapshot(c: Candidate) returns (r: Result<Commit, BookError>)
      modifies this
      ensures var outcome := SnapshotOutcome(old(State()), c);
              if outcome.Success? then r == Success(outcome.value.commit) && State() == outcome.value.book
              else r == Failure(outcome.error) && State() == old(State())
    {
      if c.provenance.market != market {
        return Failure(MarketMismatch);
      }
      if !c.operation.Snapshot? {
        return Failure(UnsupportedCandidateOperation);
      }
      var admitted := AdmitLevels(c.operation.levels);
      if admitted.Failure? {
        return Failure(admitted.error);
      }
      var next := admitted.value;
      if revision == U64_MAX {
        return Failure(CounterOverflow);
      }
      var diverges := deltaRail && continuity.Intact? && !EconomicallyEqual(levels, next);
      if diverges && syncDivergences == U64_MAX {
        return Failure(CounterOverflow);
      }
      var broken := if diverges then continuity.Lose(SyncDivergence) else continuity;
      var recoveryBase := broken.Lost?;
      var rebased := if recoveryBase then broken.Recover(0) else Success(broken);
      if rebased.Failure? {
        return Failure(ContinuityFailed(rebased.error));
      }
      r := CommitBase(c.provenance, next, rebased.value, diverges, recoveryBase);
    }

    /** The committing half of `apply_snapshot`. */
    method CommitBase(source: Provenance, next: Levels, based: Continuity, diverges: bool, recoveryBase: bool)
      returns (r: Result<Commit, BookError>)
      requires based.Intact?
      requires diverges == Diverges(State(), next)
      requires recoveryBase == (continuity.Lost? || diverges)
      modifies this
      ensures var outcome := CommitSnapshot(old(State()), source, next, based);
              if outcome.Success? then r == Success(outcome.value.commit) && State() == outcome.value.book
              else r == Failure(outcome.error) && State() == old(State())
    {
      var derived: Result<seq<Record>, BookError> := Success([]);
      if !(recoveryBase || provenance.None? || deltaRail) {
        derived := DeriveMutations(levels, next,
                                   Stamp(source, revision + 1, based.epoch, based.nextPosition, DerivedDiff));
      }
      assert derived == SnapshotRecords(State(), next, source, based);
      var prepared := Prepare(derived, false, source, revision + 1, based);
      if prepared.Failure? {
        return Failure(prepared.error);
      }
      r := Success(Commit(revision + 1, based.epoch, recoveryBase,
                          if diverges then Some(deltasSinceSnapshot) else None, prepared.value.records));
      StoreSnapshot(next, prepared.value, diverges);
    }

    method StoreSnapshot(next: Levels, prepared: Prepared, diverges: bool)
      modifies this
      ensures State() == old(State()).(
        levels := next, authority := Live, continuity := prepared.continuity, revision := old(revision) + 1,
        provenance := Some(prepared.provenance), deltasSinceSnapshot := 0,
        syncDivergences := old(syncDivergences) + if diverges then 1 else 0)
    {
      continuity := prepared.continuity;
      levels := next;
      revision := revision + 1;
      authority := Live;
      provenance := Some(prepared.provenance);
      deltasSinceSnapshot := 0;
      if diverges {
        syncDivergences := syncDivergences + 1;
      }
    }

    /** Commits a venue delta, or refuses it and leaves every field alone. */
    method ApplySourceDelta(c: Candidate) returns (r: Result<Commit, BookError>)
      modifies this
      ensures var outcome := DeltaOutcome(old(State()), c);
              if outcome.Success? then r == Success(outcome.value.commit) && State() == outcome.value.book
              else r == Failure(outcome.error) && State() == old(State())
    {
      if c.provenance.market != market {
        return Failure(MarketMismatch);
      }
      if !c.operation.SourceDelta? {
        return Failure(UnsupportedCandidateOperation);
      }
      if c.operation.levels == [] {
        return Failure(EmptyDelta);
      }
      if provenance.None? {
        return Failure(NoEstablishedBase);
      }
      if continuity.Lost? {
        return Failure(ContinuityLost);
      }
      var admitted := AdmitLevels(c.operation.levels);
      if admitted.Failure? {
        return Failure(admitted.error);
      }
      if revision == U64_MAX {
        return Failure(CounterOverflow);
      }
      r := CommitReported(c.provenance, c.operation.levels);
    }

    /** The committing half of `apply_source_delta`. */
    method CommitReported(source: Provenance, delta: seq<Level>) returns (r: Result<Commit, BookError>)
      requires continuity.Intact?
      modifies this
      ensures var outcome := CommitDelta(old(State()), source, delta);
              if outcome.Success? then r == Success(outcome.value.commit) && State() == outcome.value.book
              else r == Failure(outcome.error) && State() == old(State())
    {
      var epoch := continuity.epoch;
      var reported := EmitAll(DeltaChanges(levels, delta),
                              Stamp(source, revision + 1, epoch, continuity.nextPosition, SourceReportedDiff));
      var prepared := Prepare(reported, deltasSinceSnapshot == U64_MAX, source, revision + 1, continuity);
      if prepared.Failure? {
        return Failure(prepared.error);
      }
      r := Success(Commit(revision + 1, epoch, false, None, prepared.value.records));
      StoreDelta(delta, prepared.value);
    }

    method StoreDelta(delta: seq<Level>, prepared: Prepared)
      modifies this
      ensures State() == old(State()).(
        levels := Fold(old(levels), delta), authority := Live, continuity := prepared.continuity,
        revision := old(revision) + 1, provenance := Some(prepared.provenance), deltaRail := true,
        deltasSinceSnapshot := old(deltasSinceSnapshot) + 1)
    {
      FoldInto(delta);
      continuity := prepared.continuity;
      revision := revision + 1;
      authority := Live;
      provenance := Some(prepared.provenance);
      deltaRail := true;
      deltasSinceSnapshot := deltasSinceSnapshot + 1;
    }

    /** Sets and removes the delta's coordinates in the stored map. */
    method FoldInto(delta: seq<Level>)
      modifies this`levels
      ensures levels == Fold(old(levels), delta)
    {
      for i := 0 to |delta|
        invariant levels == Fold(old(levels), delta[..i])
      {
        ghost var seen := delta[..i + 1];
        assert seen[..i] == delta[..i];
        if delta[i].quantity.coefficient == 0 {
          levels := levels - {delta[i].at};
        } else {
          levels := levels[delta[i].at := delta[i].quantity];
        }
      }
      assert delta[..|delta|] == delta;
    }

    method Unsubscribe() returns (r: Result<bool, BookError>)
      modifies this
      ensures match UnsubscribeOutcome(old(State()))
              case Failure(error) => r == Failure(error) && State() == old(State())
              case Success(None) => r == Success(false) && State() == old(State())
              case Success(Some(next)) => r == Success(true) && State() == next
    {
      if authority == Unsubscribed {
        return Success(false);
      }
      if revision == U64_MAX {
        return Failure(CounterOverflow);
      }
      revision := revision + 1;
      authority := Unsubscribed;
      return Success(true);
    }

    method ReportContinuityLoss(reason: ContinuityReason, authorityReason: AuthorityReason)
      returns (r: Result<bool, BookError>)
      modifies this
      ensures match LossOutcome(old(State()), reason, authorityReason)
              case Failure(error) => r == Failure(error) && State() == old(State())
              case Success(None) => r == Success(false) && State() == old(State())
              case Success(Some(next)) => r == Success(true) && State() == next
    {
      var nextContinuity := continuity.Lose(reason);
      var nextAuthority := Stale(authorityReason);
      if nextContinuity == continuity && nextAuthority == authority {
        return Success(false);
      }
      if revision == U64_MAX {
        return Failure(CounterOverflow);
      }
      revision := revision + 1;
      continuity := nextContinuity;
      authority := nextAuthority;
      return Success(true);
    }

    /** Allocates the next stream position and moves nothing else. */
    method NoteStreamEvent() returns (r: Result<Cursor, BookError>)
      modifies this`continuity
      ensures match StreamEventOutcome(old(State()))
              case Failure(error) => r == Failure(error) && State() == old(State())
              case Success((next, cursor)) => r == Success(cursor) && State() == next
    {
      if continuity.Lost? {
        return Failure(ContinuityLost);
      }
      var cursor := Cursor(continuity.epoch, continuity.nextPosition);
      var advanced := continuity.Advance(1);
      if advanced.Failure? {
        return Failure(ContinuityFailed(advanced.error));
      }
      continuity := advanced.value;
      return Success(cursor);
    }

    /** The immutable copy readers get, levels ascending. */
    method Publish() returns (p: PublishedBook)
      ensures p == View(State())
    {
      var order := Sort(levels.Keys);
      AscendingIsUnique(order, Sorted(levels.Keys));
      assert forall c :: c in order <==> c in Elements(order);
      return PublishedBook(market, LevelsAt(order, levels), authority, continuity, revision, provenance,
                           syncDivergences);
    }
  }
}
