/** What each input to the book leaves beside its levels and its stream: the refusals,
    authority, provenance, revision and the window of deltas (src/book.rs, src/state.rs). */
module BookOutcomes {
  import opened Prelude
  import opened Complement
  import opened Observation
  import opened Book
  import opened BookSteps
  import opened BookCommits
  import opened BookRuns
  import opened Published

  // ---------------------------------------------------------------------------------
  // Refusals
  // ---------------------------------------------------------------------------------

  /** The level at `i` is the first one that cannot be taken, and this is why. */
  ghost predicate FirstDefect(levels: seq<Level>, i: nat, error: BookError) {
    && i < |levels|
    && AllComplementable(levels[..i]) && DistinctLevels(levels[..i])
    && if !Complementable(levels[i].at.price)
       then Refusal(levels[i].at.price).Some? && error == NonComplementablePrice(Refusal(levels[i].at.price).value)
       else error == DuplicateLevelCoordinate && exists j :: 0 <= j < i && levels[j].at == levels[i].at
  }

  lemma {:induction false} RefusedLast(levels: seq<Level>)
    requires levels != [] && Admit(levels[..|levels| - 1]).Success? && Admit(levels).Failure?
    ensures FirstDefect(levels, |levels| - 1, Admit(levels).error)
  {
    var n := |levels| - 1;
    AdmitMeaning(levels[..n]);
    var m := Admit(levels[..n]).value;
    if Complementable(levels[n].at.price) {
      assert levels[n].at in m;
      var j :| 0 <= j < |levels[..n]| && levels[..n][j].at == levels[n].at;
      assert levels[j].at == levels[n].at;
    }
  }

  /** A level list is refused for its first defect, in list order. */
  lemma {:induction false} RefusedForFirstDefect(levels: seq<Level>) returns (i: nat)
    requires Admit(levels).Failure?
    ensures FirstDefect(levels, i, Admit(levels).error)
    decreases |levels|
  {
    var n := |levels| - 1;
    if Admit(levels[..n]).Failure? {
      i := RefusedForFirstDefect(levels[..n]);
      assert levels[..n][..i] == levels[..i];
    } else {
      i := n;
      RefusedLast(levels);
    }
  }

  /** The levels of a candidate that names this book and is of the right kind. */
  ghost predicate InOrder(levels: seq<Level>) {
    AllComplementable(levels) && DistinctLevels(levels)
  }

  /** Snapshots are refused, in this order, for another market, another kind of operation,
      a defect among the levels, a full counter, or a stream that cannot go on. */
  lemma {:induction false} SnapshotRefusals(b: BookState, c: Candidate)
    requires IsCandidate(c) && Fits(b) && SnapshotOutcome(b, c).Failure?
    ensures var e := SnapshotOutcome(b, c).error;
            if c.provenance.market != b.market then e == MarketMismatch
            else if !c.operation.Snapshot? then e == UnsupportedCandidateOperation
            else if !InOrder(c.operation.levels) then exists i :: FirstDefect(c.operation.levels, i, e)
            else exists next :: Admit(c.operation.levels) == Success(next) && SnapshotOverflow(b, next, e)
  {
    if c.provenance.market == b.market && c.operation.Snapshot? {
      AdmitMeaning(c.operation.levels);
      if Admit(c.operation.levels).Failure? {
        var i := RefusedForFirstDefect(c.operation.levels);
      } else {
        SnapshotOverflows(b, c);
      }
    }
  }

  /** How a stream position that cannot be reached is reported: when the positions
      themselves run out, or only the one after them. */
  ghost predicate PositionsOverflow(first: nat, count: nat, e: BookError) {
    && first + count > U64_MAX
    && e == if first + count == U64_MAX + 1 && count <= U64_MAX then ContinuityFailed(EpochOverflow)
            else CounterOverflow
  }

  lemma {:induction false} CommitOverflows(b: BookState, source: Provenance, next: Levels, continuity: Continuity)
    requires NewProvenance(source) == Success(source) && continuity.Intact? && continuity.nextPosition <= U64_MAX
    requires CommitSnapshot(b, source, next, continuity).Failure?
    ensures PositionsOverflow(continuity.nextPosition, DerivedCount(b, next),
                              CommitSnapshot(b, source, next, continuity).error)
  {
    LatestIsTotal(source, b.revision + 1, continuity.epoch);
    SnapshotRecordsCount(b, source, next, continuity);
  }

  /** Which counter stopped a snapshot with nothing else wrong with it. */
  ghost predicate SnapshotOverflow(b: BookState, next: Levels, e: BookError) {
    var diverges := b.deltaRail && b.continuity.Intact? && !SameDepth(b.levels, next);
    if b.revision == U64_MAX || (diverges && b.syncDivergences == U64_MAX) then e == CounterOverflow
    else if b.continuity.Lost? || diverges then e == ContinuityFailed(EpochOverflow) && b.continuity.epoch == U64_MAX
    else PositionsOverflow(b.continuity.nextPosition, DerivedCount(b, next), e)
  }

  lemma {:induction false} SilentWhenRebased(b: BookState, next: Levels)
    requires b.continuity.Lost? || Diverges(b, next)
    ensures DerivedCount(b, next) == 0
  {
  }

  lemma {:induction false} SnapshotOverflows(b: BookState, c: Candidate)
    requires IsCandidate(c) && Fits(b) && c.provenance.market == b.market && c.operation.Snapshot?
    requires Admit(c.operation.levels).Success? && SnapshotOutcome(b, c).Failure?
    ensures SnapshotOverflow(b, Admit(c.operation.levels).value, SnapshotOutcome(b, c).error)
  {
    var next := Admit(c.operation.levels).value;
    EconomyIsDepth(b.levels, next);
    var rebased := Rebased(b.continuity, Diverges(b, next));
    if b.revision != U64_MAX && !(Diverges(b, next) && b.syncDivergences == U64_MAX) && rebased.Success? {
      if b.continuity.Lost? || Diverges(b, next) {
        SilentWhenRebased(b, next);
      }
      RebasedShape(b.continuity, Diverges(b, next));
      SnapshotCommits(b, c.provenance, next, rebased.value);
      CommitOverflows(b, c.provenance, next, rebased.value);
    }
  }

  /** The same for deltas, which are also refused for being empty, without a base and on a
      lost stream, before their levels are looked at. */
  lemma {:induction false} DeltaRefusedFor(b: BookState, c: Candidate)
    requires IsCandidate(c) && Fits(b) && DeltaOutcome(b, c).Failure?
    ensures var e := DeltaOutcome(b, c).error;
            if c.provenance.market != b.market then e == MarketMismatch
            else if !c.operation.SourceDelta? then e == UnsupportedCandidateOperation
            else if c.operation.levels == [] then e == EmptyDelta
            else if b.provenance.None? then e == NoEstablishedBase
            else if b.continuity.Lost? then e == ContinuityLost
            else if !InOrder(c.operation.levels) then exists i :: FirstDefect(c.operation.levels, i, e)
            else if b.revision == U64_MAX then e == CounterOverflow
            else DeltaOverflow(b, c.operation.levels, e)
  {
    AdmitMeaning(c.operation.levels);
    if DeltaReaches(b, c) {
      DeltaReachesCommit(b, c);
      SourceIsReported(c);
      DeltaOverflows(b, c.provenance, c.operation.levels);
    } else if Admit(c.operation.levels).Failure? {
      var i := RefusedForFirstDefect(c.operation.levels);
    }
  }

  /** Which counter stopped a delta with nothing else wrong with it. */
  ghost predicate DeltaOverflow(b: BookState, levels: seq<Level>, e: BookError)
    requires b.continuity.Intact?
  {
    || (b.deltasSinceSnapshot == U64_MAX && e == CounterOverflow)
    || (b.deltasSinceSnapshot < U64_MAX
        && PositionsOverflow(b.continuity.nextPosition, NewsCount(b.levels, levels), e))
  }

  lemma {:induction false} DeltaOverflows(b: BookState, source: Provenance, levels: seq<Level>)
    requires NewProvenance(source) == Success(source) && source.origin == SourceReported
    requires b.continuity.Intact? && b.continuity.nextPosition <= U64_MAX && b.deltasSinceSnapshot <= U64_MAX
    requires CommitDelta(b, source, levels).Failure?
    ensures DeltaOverflow(b, levels, CommitDelta(b, source, levels).error)
  {
    LatestIsTotal(source, b.revision + 1, b.continuity.epoch);
    NewsAreChanges(b.levels, levels);
    EmitMeaning(DeltaChanges(b.levels, levels),
                Stamp(source, b.revision + 1, b.continuity.epoch, b.continuity.nextPosition, SourceReportedDiff));
  }

  // ---------------------------------------------------------------------------------
  // What a commit leaves
  // ---------------------------------------------------------------------------------

  /** A committed candidate makes the book live, publishes the candidate's own provenance
      under the new revision and the epoch it committed in, and is described as such. */
  lemma {:induction false} CommitLeaves(b: BookState, i: Input)
    requires BookInv(b) && IsInput(i) && Step(b, i).commit.Some?
    ensures i.ApplySnapshot? || i.ApplyDelta?
    ensures var e, p := Step(b, i), i.candidate.provenance;
            && e.book.authority == Live
            && e.book.market == b.market == p.market
            && e.book.revision == e.commit.value.revision == b.revision + 1
            && e.book.continuity.Intact? && e.book.continuity.epoch == e.commit.value.epoch
            && e.book.provenance
               == Some(p.(localRevision := b.revision + 1, continuityEpoch := e.book.continuity.epoch))
            && |e.deliveries| == |e.commit.value.records|
  {
    if i.ApplySnapshot? {
      var next, based, records := SnapshotParts(b, i.candidate);
      RebaseIsTotal(i.candidate.provenance, b.revision + 1, based.epoch, LatestState);
    } else {
      var records := DeltaParts(b, i.candidate);
      RebaseIsTotal(i.candidate.provenance, b.revision + 1, b.continuity.epoch, LatestState);
    }
  }

  /** The first base is not a difference: it emits nothing and opens no epoch.  A base
      that recovers a lost stream emits nothing and opens the next. */
  lemma {:induction false} BasesAreSilent(b: BookState, c: Candidate)
    requires BookInv(b) && IsCandidate(c) && SnapshotOutcome(b, c).Success?
    requires b.provenance.None? || b.continuity.Lost?
    ensures var e := Step(b, ApplySnapshot(c));
            && e.deliveries == []
            && (b.continuity.Intact? ==> e.book.continuity == b.continuity && !e.commit.value.recoveryBase)
            && (b.continuity.Lost? ==>
                  e.book.continuity == Intact(b.continuity.epoch + 1, 0) && e.commit.value.recoveryBase)
  {
    var next, based, records := SnapshotParts(b, c);
    RebasedShape(b.continuity, Diverges(b, next));
  }

  lemma {:induction false} DerivedLabels(b: BookState, c: Candidate, d: Delivery)
    requires BookInv(b) && IsCandidate(c) && SnapshotOutcome(b, c).Success?
    requires d in Step(b, ApplySnapshot(c)).deliveries
    ensures d.Mutated?
    ensures var e, p := Step(b, ApplySnapshot(c)), d.mutation.provenance;
            && p.origin == SnapshotDiff && p.representation == Normalized && p.evidence == []
            && p.market == b.market && p.connection == c.provenance.connection
            && p.localRevision == e.book.revision && p.continuityEpoch == d.cursor.epoch
  {
    var next, based, records := SnapshotParts(b, c);
    var k :| 0 <= k < |records| && d == Mutated(b.revision + 1, records[k].cursor, records[k].mutation);
    var s := Stamp(c.provenance, b.revision + 1, based.epoch, based.nextPosition, DerivedDiff);
    RebaseIsTotal(s.source, s.revision, s.epoch, s.kind);
    var index := EmissionFacts(DiffChanges(b.levels, next), s, records);
  }

  lemma {:induction false} ReportedLabels(b: BookState, c: Candidate, d: Delivery)
    requires BookInv(b) && IsCandidate(c) && DeltaOutcome(b, c).Success?
    requires d in Step(b, ApplyDelta(c)).deliveries
    ensures d.Mutated?
    ensures d.mutation.provenance
         == c.provenance.(localRevision := Step(b, ApplyDelta(c)).book.revision, continuityEpoch := d.cursor.epoch)
  {
    var records := DeltaParts(b, c);
    var k :| 0 <= k < |records| && d == Mutated(b.revision + 1, records[k].cursor, records[k].mutation);
    CandidateLabels(c);
    AdmitMeaning(c.operation.levels);
    var s := Stamp(c.provenance, b.revision + 1, b.continuity.epoch, b.continuity.nextPosition, SourceReportedDiff);
    var index := DeltaIsExact(b.levels, c.operation.levels, s, records, b.revision + 1);
  }

  /** Every mutation says where it came from: a snapshot's are the book's own derivation, a
      delta's are the venue's report, both under the revision they are part of and the
      epoch of their cursor. */
  lemma {:induction false} MutationsAreLabelled(b: BookState, i: Input, d: Delivery)
    requires BookInv(b) && IsInput(i) && d in Step(b, i).deliveries && d.Mutated?
    ensures i.ApplySnapshot? || i.ApplyDelta?
    ensures var e, p := Step(b, i), d.mutation.provenance;
            && p.market == b.market && p.localRevision == e.book.revision && p.continuityEpoch == d.cursor.epoch
            && (i.ApplySnapshot? ==> p.origin == SnapshotDiff && p.representation == Normalized && p.evidence == [])
            && (i.ApplyDelta? ==>
                  p == i.candidate.provenance.(localRevision := e.book.revision, continuityEpoch := d.cursor.epoch))
  {
    if i.ApplySnapshot? {
      DerivedLabels(b, i.candidate, d);
    } else if i.ApplyDelta? {
      ReportedLabels(b, i.candidate, d);
    }
  }

  // ---------------------------------------------------------------------------------
  // What the other inputs leave
  // ---------------------------------------------------------------------------------

  /** A resolution takes the next position of an intact stream, under the unchanged
      revision, and moves nothing else; without a position left, or on a lost stream, it
      does nothing. */
  lemma {:induction false} ResolutionTakesOneCursor(b: BookState, resolution: string)
    requires Fits(b)
    ensures var e := Step(b, Resolve(resolution));
            if b.continuity.Intact? && b.continuity.nextPosition < U64_MAX then
              && e.deliveries
                 == [Resolved(b.revision, Cursor(b.continuity.epoch, b.continuity.nextPosition), resolution)]
              && e.book == b.(continuity := Intact(b.continuity.epoch, b.continuity.nextPosition + 1))
            else
              e.deliveries == [] && e.book == b
  {
  }

  /** A reported loss makes the book stale for the reason given, and the stream lost for
      the reason given unless it already was, and touches nothing else. */
  lemma {:induction false} LossIsRecorded(b: BookState, reason: ContinuityReason, authority: AuthorityReason)
    requires b.revision < U64_MAX
    ensures var e := Step(b, ReportLoss(reason, authority));
            && e.deliveries == [] && e.commit.None?
            && e.book == b.(authority := Stale(authority),
                            continuity := if b.continuity.Intact? then Lost(b.continuity.epoch, reason)
                                          else b.continuity,
                            revision := e.book.revision)
  {
  }

  /** Unsubscribing changes the authority and nothing else, the stream included. */
  lemma {:induction false} UnsubscribeIsRecorded(b: BookState)
    requires b.revision < U64_MAX
    ensures var e := Step(b, Unsubscribe);
            && e.deliveries == [] && e.commit.None?
            && e.book == b.(authority := Unsubscribed, revision := e.book.revision)
  {
  }

  /** Every input moves the revision by one if it changed what is published, and not at
      all if it changed nothing or only allocated a stream position. */
  lemma {:induction false} RevisionCounts(b: BookState, i: Input)
    requires BookInv(b) && IsInput(i)
    ensures var e := Step(b, i);
            e.book.revision == b.revision + (if e.book == b || i.Resolve? then 0 else 1)
  {
    if Step(b, i).commit.Some? {
      CommitLeaves(b, i);
    }
  }

  /** Once lost, the stream stays lost for its first reason, and carries nothing, through
      any run that commits no snapshot. */
  lemma {:induction false} FirstReasonStands(b: BookState, inputs: seq<Input>)
    requires BookInv(b) && b.continuity.Lost? && AllInputs(inputs)
    requires Run(b, inputs).commits == []
    ensures Run(b, inputs).book.continuity == b.continuity && Run(b, inputs).log == []
    decreases |inputs|
  {
    if inputs != [] {
      var prefix := inputs[..|inputs| - 1];
      FirstReasonStands(b, prefix);
    }
  }

  // ---------------------------------------------------------------------------------
  // The window of deltas a divergence invalidates
  // ---------------------------------------------------------------------------------

  /** How many deltas the run accepted since its last committed snapshot. */
  ghost function Window(b: BookState, inputs: seq<Input>): nat {
    if inputs == [] then 0
    else
      var prefix, last := inputs[..|inputs| - 1], inputs[|inputs| - 1];
      if Step(Run(b, prefix).book, last).commit.None? then Window(b, prefix)
      else if last.ApplyDelta? then Window(b, prefix) + 1
      else 0
  }

  /** Over any run of a new book the count a divergence would report is exactly that. */
  lemma {:induction false} WindowIsCounted(market: MarketRef, inputs: seq<Input>)
    requires AllInputs(inputs)
    ensures Run(NewBook(market), inputs).book.deltasSinceSnapshot == Window(NewBook(market), inputs)
    decreases |inputs|
  {
    if inputs != [] {
      var prefix, last := inputs[..|inputs| - 1], inputs[|inputs| - 1];
      WindowIsCounted(market, prefix);
      RunKeepsInv(NewBook(market), prefix);
      WindowStep(Run(NewBook(market), prefix).book, last);
    }
  }

  lemma {:induction false} WindowStep(b: BookState, i: Input)
    requires BookInv(b) && IsInput(i)
    ensures var e := Step(b, i);
            e.book.deltasSinceSnapshot
            == if e.commit.None? then b.deltasSinceSnapshot
               else if i.ApplyDelta? then b.deltasSinceSnapshot + 1
               else 0
  {
    if Step(b, i).commit.Some? {
      if i.ApplySnapshot? {
        var next, based, records := SnapshotParts(b, i.candidate);
      } else {
        var records := DeltaParts(b, i.candidate);
      }
    }
  }

  // ---------------------------------------------------------------------------------
  // Refusals of the other operations
  // ---------------------------------------------------------------------------------

  /** Unsubscribing and reporting a loss are refused only for want of a revision, and only
      when there is something to change. */
  lemma {:induction false} QuietRefusals(b: BookState, reason: ContinuityReason, authority: AuthorityReason)
    requires Fits(b)
    ensures UnsubscribeOutcome(b)
         == if b.authority == Unsubscribed then Success(None)
            else if b.revision == U64_MAX then Failure(CounterOverflow)
            else Success(Some(Step(b, Unsubscribe).book))
    ensures LossOutcome(b, reason, authority)
         == if b.continuity.Lost? && b.authority == Stale(authority) then Success(None)
            else if b.revision == U64_MAX then Failure(CounterOverflow)
            else Success(Some(Step(b, ReportLoss(reason, authority)).book))
  {
  }

  /** A stream event is refused on a lost stream, and when no position is left. */
  lemma {:induction false} StreamEventRefusals(b: BookState)
    requires Fits(b) && StreamEventOutcome(b).Failure?
    ensures if b.continuity.Lost? then StreamEventOutcome(b).error == ContinuityLost
            else b.continuity.nextPosition == U64_MAX && StreamEventOutcome(b).error == ContinuityFailed(EpochOverflow)
  {
  }

  // ---------------------------------------------------------------------------------
  // The published state over a run
  // ---------------------------------------------------------------------------------

  /** Who may speak for the book after a run: live after a commit, stale after a reported
      loss, unsubscribed after unsubscribing, synchronizing before any of them. */
  ghost function AuthorityAfter(market: MarketRef, inputs: seq<Input>): AuthorityState {
    if inputs == [] then Synchronizing
    else
      var prefix, last := inputs[..|inputs| - 1], inputs[|inputs| - 1];
      var b := Run(NewBook(market), prefix).book;
      if Step(b, last).book == b then AuthorityAfter(market, prefix)
      else
        match last
        case ApplySnapshot(_) => Live
        case ApplyDelta(_) => Live
        case ReportLoss(_, reason) => Stale(reason)
        case Unsubscribe => Unsubscribed
        case Resolve(_) => AuthorityAfter(market, prefix)
  }

  lemma {:induction false} AuthorityStep(b: BookState, i: Input)
    requires BookInv(b) && IsInput(i) && Step(b, i).book != b
    ensures Step(b, i).book.market == b.market
    ensures Step(b, i).book.authority
         == match i
            case ApplySnapshot(_) => Live
            case ApplyDelta(_) => Live
            case ReportLoss(_, reason) => Stale(reason)
            case Unsubscribe => Unsubscribed
            case Resolve(_) => b.authority
  {
    if Step(b, i).commit.Some? {
      CommitLeaves(b, i);
    }
  }

  lemma {:induction false} AuthorityOverRun(market: MarketRef, inputs: seq<Input>)
    requires AllInputs(inputs)
    ensures Run(NewBook(market), inputs).book.authority == AuthorityAfter(market, inputs)
    ensures Run(NewBook(market), inputs).book.market == market
    decreases |inputs|
  {
    if inputs != [] {
      var prefix, last := inputs[..|inputs| - 1], inputs[|inputs| - 1];
      AuthorityOverRun(market, prefix);
      RunKeepsInv(NewBook(market), prefix);
      var b := Run(NewBook(market), prefix).book;
      if Step(b, last).book != b {
        AuthorityStep(b, last);
      }
    }
  }

  /** What is published after any run of a new book: its market, who may speak for it, the
      divergences counted so far, and of the rest exactly what the book holds. */
  lemma {:induction false} PublishedOverRun(market: MarketRef, inputs: seq<Input>)
    requires AllInputs(inputs)
    ensures var t := Run(NewBook(market), inputs);
            var p := View(t.book);
            && p.market == market
            && p.authority == AuthorityAfter(market, inputs)
            && p.syncDivergences == Divergences(t.commits)
            && p.continuity.epoch == Recoveries(t.commits)
            && LevelMap(p.levels) == t.book.levels
            && p.revision == t.book.revision && p.provenance == t.book.provenance && p.continuity == t.book.continuity
  {
    AuthorityOverRun(market, inputs);
    CursorAllocation(market, inputs);
    PublishedLevelsRestore(Run(NewBook(market), inputs).book.levels);
  }
}
