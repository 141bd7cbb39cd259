/** Whole runs of the book: what every step keeps, and what follows for the stream of
    deliveries over any sequence of inputs (src/book.rs, src/state.rs). */
module BookRuns {
  import opened Prelude
  import opened Complement
  import opened Observation
  import opened Book
  import opened BookSteps
  import opened BookCommits
  import opened Published

  // ---------------------------------------------------------------------------------
  // What one step keeps
  // ---------------------------------------------------------------------------------

  /** The book invariant: counters fit, prices have complements, and a delta rail or any
      level presupposes an accepted base. */
  ghost predicate BookInv(b: BookState) {
    && Fits(b)
    && (forall c :: c in b.levels ==> Complementable(c.price))
    && (b.deltaRail ==> b.provenance.Some?)
    && (b.provenance.None? ==> b.levels == map[])
  }

  /** How continuity may move in a step that puts `n` deliveries on the stream. */
  ghost predicate Follows(before: Continuity, after: Continuity, n: nat) {
    || (before.Intact? && after == Intact(before.epoch, before.nextPosition + n))
    || (n == 0 && after == before)
    || (n == 0 && before.Intact? && after.Lost? && after.epoch == before.epoch)
    || (n == 0 && after == Intact(before.epoch + 1, 0))
  }

  /** The stream side of a step: consecutive cursors from the next position on, a fresh
      revision for mutations, the unchanged one for a resolution. */
  ghost predicate StreamStep(b: BookState, e: Effect) {
    && Follows(b.continuity, e.book.continuity, |e.deliveries|)
    && b.revision <= e.book.revision
    && (forall k :: 0 <= k < |e.deliveries| ==>
          && b.continuity.Intact?
          && e.deliveries[k].cursor == Cursor(b.continuity.epoch, b.continuity.nextPosition + k)
          && e.deliveries[k].revision == e.book.revision
          && (e.deliveries[k].Mutated? ==> b.revision < e.book.revision))
  }

  /** The level side of a step, on an established base and within one epoch: replaying
      the deliveries agrees with the map left behind, exactly off the delta rail. */
  ghost predicate ReplayStep(b: BookState, e: Effect) {
    b.provenance.Some? ==>
      && e.book.provenance.Some?
      && (b.deltaRail ==> e.book.deltaRail)
      && (e.book.continuity.epoch == b.continuity.epoch ==>
            && SameDepth(Replay(b.levels, e.deliveries), e.book.levels)
            && (!e.book.deltaRail ==> Replay(b.levels, e.deliveries) == e.book.levels))
  }

  /** The fields of an accepted snapshot, taken apart. */
  lemma {:induction false} SnapshotParts(b: BookState, c: Candidate)
    returns (next: Levels, based: Continuity, records: seq<Record>)
    requires SnapshotOutcome(b, c).Success?
    ensures Admit(c.operation.levels) == Success(next)
    ensures Rebased(b.continuity, Diverges(b, next)) == Success(based) && based.Intact?
    ensures SnapshotRecords(b, next, c.provenance, based) == Success(records)
    ensures based.nextPosition + |records| <= U64_MAX && b.revision != U64_MAX
    ensures Diverges(b, next) ==> b.syncDivergences != U64_MAX
    ensures var e := Step(b, ApplySnapshot(c));
            && e.book.levels == next
            && e.book.continuity == Intact(based.epoch, based.nextPosition + |records|)
            && e.book.revision == b.revision + 1
            && e.book.provenance.Some?
            && e.book.deltaRail == b.deltaRail
            && e.book.deltasSinceSnapshot == 0
            && e.book.syncDivergences == b.syncDivergences + (if Diverges(b, next) then 1 else 0)
            && e.commit == Some(Commit(b.revision + 1, based.epoch, b.continuity.Lost? || Diverges(b, next),
                                       if Diverges(b, next) then Some(b.deltasSinceSnapshot) else None, records))
            && e.deliveries == Deliveries(b.revision + 1, records)
  {
    next := Admit(c.operation.levels).value;
    based := Rebased(b.continuity, Diverges(b, next)).value;
    records := SnapshotRecords(b, next, c.provenance, based).value;
  }

  /** The fields of an accepted delta, taken apart. */
  lemma {:induction false} DeltaParts(b: BookState, c: Candidate) returns (records: seq<Record>)
    requires DeltaOutcome(b, c).Success?
    ensures Admit(c.operation.levels).Success?
    ensures b.continuity.Intact? && b.provenance.Some?
    ensures DeltaRecords(b, c.provenance, c.operation.levels) == Success(records)
    ensures b.continuity.nextPosition + |records| <= U64_MAX && b.revision != U64_MAX
    ensures b.deltasSinceSnapshot != U64_MAX
    ensures var e := Step(b, ApplyDelta(c));
            && e.book.levels == Fold(b.levels, c.operation.levels)
            && e.book.continuity == Intact(b.continuity.epoch, b.continuity.nextPosition + |records|)
            && e.book.revision == b.revision + 1
            && e.book.provenance.Some?
            && e.book.deltaRail
            && e.book.deltasSinceSnapshot == b.deltasSinceSnapshot + 1
            && e.book.syncDivergences == b.syncDivergences
            && e.commit == Some(Commit(b.revision + 1, b.continuity.epoch, false, None, records))
            && e.deliveries == Deliveries(b.revision + 1, records)
  {
    records := DeltaRecords(b, c.provenance, c.operation.levels).value;
  }

  lemma {:induction false} RebasedShape(continuity: Continuity, diverges: bool)
    requires Rebased(continuity, diverges).Success?
    ensures Rebased(continuity, diverges).value
         == if continuity.Lost? || diverges then Intact(continuity.epoch + 1, 0) else continuity
    ensures Rebased(continuity, diverges).value.epoch <= U64_MAX || continuity.epoch > U64_MAX
  {
  }

  lemma {:induction false} SnapshotStream(b: BookState, c: Candidate)
    requires IsCandidate(c) && BookInv(b) && SnapshotOutcome(b, c).Success?
    ensures StreamStep(b, Step(b, ApplySnapshot(c)))
  {
    var next, based, records := SnapshotParts(b, c);
    RebasedShape(b.continuity, Diverges(b, next));
    if Derives(b) {
      var s := Stamp(c.provenance, b.revision + 1, based.epoch, based.nextPosition, DerivedDiff);
      var index := EmissionFacts(DiffChanges(b.levels, next), s, records);
    }
  }

  lemma {:induction false} SnapshotReplay(b: BookState, c: Candidate)
    requires IsCandidate(c) && BookInv(b) && SnapshotOutcome(b, c).Success?
    ensures ReplayStep(b, Step(b, ApplySnapshot(c)))
  {
    var next, based, records := SnapshotParts(b, c);
    RebasedShape(b.continuity, Diverges(b, next));
    if Derives(b) {
      var s := Stamp(c.provenance, b.revision + 1, based.epoch, based.nextPosition, DerivedDiff);
      DiffIsExact(b.levels, next, s, records, b.revision + 1);
    } else {
      EconomyIsDepth(b.levels, next);
      assert Deliveries(b.revision + 1, records) == [];
    }
  }

  lemma {:induction false} CandidateLabels(c: Candidate)
    requires IsCandidate(c)
    ensures NewProvenance(c.provenance) == Success(c.provenance)
    ensures c.operation.SourceDelta? ==> c.provenance.origin == SourceReported
  {
  }

  lemma {:induction false} DeltaStream(b: BookState, c: Candidate)
    requires IsCandidate(c) && BookInv(b) && DeltaOutcome(b, c).Success?
    ensures StreamStep(b, Step(b, ApplyDelta(c)))
  {
    var records := DeltaParts(b, c);
    CandidateLabels(c);
    var s := Stamp(c.provenance, b.revision + 1, b.continuity.epoch, b.continuity.nextPosition, SourceReportedDiff);
    var index := EmissionFacts(DeltaChanges(b.levels, c.operation.levels), s, records);
  }

  lemma {:induction false} DeltaReplay(b: BookState, c: Candidate)
    requires IsCandidate(c) && BookInv(b) && DeltaOutcome(b, c).Success?
    ensures ReplayStep(b, Step(b, ApplyDelta(c)))
  {
    var records := DeltaParts(b, c);
    CandidateLabels(c);
    AdmitMeaning(c.operation.levels);
    var s := Stamp(c.provenance, b.revision + 1, b.continuity.epoch, b.continuity.nextPosition, SourceReportedDiff);
    var index := DeltaIsExact(b.levels, c.operation.levels, s, records, b.revision + 1);
  }

  lemma {:induction false} TabulatedAreComplementable(m: Levels, levels: seq<Level>)
    requires Tabulates(m, levels) && AllComplementable(levels)
    ensures forall c :: c in m ==> Complementable(c.price)
  {
  }

  lemma {:induction false} FoldedAreComplementable(m: Levels, levels: seq<Level>)
    requires AllComplementable(levels)
    requires forall c :: c in m ==> Complementable(c.price)
    ensures forall c :: c in Fold(m, levels) ==> Complementable(c.price)
    decreases |levels|
  {
    if levels != [] {
      FoldedAreComplementable(m, levels[..|levels| - 1]);
    }
  }

  lemma {:induction false} SnapshotInv(b: BookState, c: Candidate)
    requires BookInv(b) && SnapshotOutcome(b, c).Success?
    ensures BookInv(Step(b, ApplySnapshot(c)).book)
  {
    var next, based, records := SnapshotParts(b, c);
    RebasedShape(b.continuity, Diverges(b, next));
    AdmitMeaning(c.operation.levels);
    TabulatedAreComplementable(next, c.operation.levels);
  }

  lemma {:induction false} DeltaInv(b: BookState, c: Candidate)
    requires BookInv(b) && DeltaOutcome(b, c).Success?
    ensures BookInv(Step(b, ApplyDelta(c)).book)
  {
    var records := DeltaParts(b, c);
    AdmitMeaning(c.operation.levels);
    FoldedAreComplementable(b.levels, c.operation.levels);
  }

  /** Every input, accepted or refused, keeps the invariant, continues the stream without
      a gap or a reuse, and keeps the stream and the map in agreement. */
  lemma {:induction false} StepKeeps(b: BookState, i: Input)
    requires BookInv(b) && IsInput(i)
    ensures BookInv(Step(b, i).book)
    ensures StreamStep(b, Step(b, i))
    ensures ReplayStep(b, Step(b, i))
  {
    match i
    case ApplySnapshot(c) =>
      if SnapshotOutcome(b, c).Success? {
        SnapshotInv(b, c);
        SnapshotStream(b, c);
        SnapshotReplay(b, c);
      }
    case ApplyDelta(c) =>
      if DeltaOutcome(b, c).Success? {
        DeltaInv(b, c);
        DeltaStream(b, c);
        DeltaReplay(b, c);
      }
    case ReportLoss(_, _) =>
    case Unsubscribe =>
    case Resolve(resolution) =>
      var e := Step(b, i);
      if e.deliveries != [] {
        assert e.deliveries[..0] == [];
      }
  }

  // ---------------------------------------------------------------------------------
  // Runs
  // ---------------------------------------------------------------------------------

  /** A run's end: the book, everything put on the stream, every commit, and how many
      deltas were accepted. */
  datatype Trace = Trace(book: BookState, log: seq<Delivery>, commits: seq<Commit>, deltas: nat)

  ghost predicate AllInputs(inputs: seq<Input>) {
    forall k :: 0 <= k < |inputs| ==> IsInput(inputs[k])
  }

  ghost function Extend(t: Trace, i: Input): Trace {
    var e := Step(t.book, i);
    Trace(e.book, t.log + e.deliveries,
          if e.commit.Some? then t.commits + [e.commit.value] else t.commits,
          if i.ApplyDelta? && e.commit.Some? then t.deltas + 1 else t.deltas)
  }

  ghost function Run(b: BookState, inputs: seq<Input>): Trace {
    if inputs == [] then Trace(b, [], [], 0)
    else Extend(Run(b, inputs[..|inputs| - 1]), inputs[|inputs| - 1])
  }

  lemma {:induction false} RunKeepsInv(b: BookState, inputs: seq<Input>)
    requires BookInv(b) && AllInputs(inputs)
    ensures BookInv(Run(b, inputs).book)
    decreases |inputs|
  {
    if inputs != [] {
      var prefix := inputs[..|inputs| - 1];
      RunKeepsInv(b, prefix);
      StepKeeps(Run(b, prefix).book, inputs[|inputs| - 1]);
    }
  }

  // ---------------------------------------------------------------------------------
  // Cursor allocation
  // ---------------------------------------------------------------------------------

  /** The cursor opens a later epoch at 0 or is the successor of the one before it. */
  ghost predicate Continues(log: seq<Delivery>, i: nat)
    requires i < |log|
  {
    || (log[i].cursor.position == 0 && (i == 0 || log[i - 1].cursor.epoch < log[i].cursor.epoch))
    || (0 < i && log[i].cursor == Cursor(log[i - 1].cursor.epoch, log[i - 1].cursor.position + 1))
  }

  ghost predicate Gapless(log: seq<Delivery>) {
    forall i :: 0 <= i < |log| ==> Continues(log, i)
  }

  /** The stream position of the book is the one right after the log. */
  ghost predicate Frontier(log: seq<Delivery>, continuity: Continuity) {
    && (log != [] ==> log[|log| - 1].cursor.epoch <= continuity.epoch)
    && (continuity.Intact? ==>
          if continuity.nextPosition == 0 then log == [] || log[|log| - 1].cursor.epoch < continuity.epoch
          else log != [] && log[|log| - 1].cursor == Cursor(continuity.epoch, continuity.nextPosition - 1))
  }

  lemma {:induction false} StepExtendsLog(b: BookState, log: seq<Delivery>, e: Effect)
    requires Gapless(log) && Frontier(log, b.continuity) && StreamStep(b, e)
    ensures Gapless(log + e.deliveries) && Frontier(log + e.deliveries, e.book.continuity)
  {
    var all := log + e.deliveries;
    forall i | 0 <= i < |all|
      ensures Continues(all, i)
    {
      if i < |log| {
        assert all[i] == log[i] && Continues(log, i);
        assert 0 < i ==> all[i - 1] == log[i - 1];
      } else {
        assert all[i] == e.deliveries[i - |log|];
        if |log| < i {
          assert all[i - 1] == e.deliveries[i - 1 - |log|];
        }
      }
    }
  }

  /** In a gapless log cursors strictly increase, so none is reused. */
  lemma {:induction false} GaplessIncreases(log: seq<Delivery>, i: nat, j: nat)
    requires Gapless(log) && i < j < |log|
    ensures Precedes(log[i].cursor, log[j].cursor)
    decreases j
  {
    assert Continues(log, j);
    if i < j - 1 {
      GaplessIncreases(log, i, j - 1);
    }
  }

  /** In a gapless log every epoch's positions start at 0 and have no hole. */
  lemma {:induction false} GaplessFromZero(log: seq<Delivery>, i: nat, position: nat) returns (j: nat)
    requires Gapless(log) && i < |log| && position <= log[i].cursor.position
    ensures j <= i && log[j].cursor == Cursor(log[i].cursor.epoch, position)
    decreases i
  {
    assert Continues(log, i);
    if position == log[i].cursor.position {
      j := i;
    } else {
      j := GaplessFromZero(log, i - 1, position);
    }
  }

  ghost function Recoveries(commits: seq<Commit>): nat {
    if commits == [] then 0
    else Recoveries(commits[..|commits| - 1]) + if commits[|commits| - 1].recoveryBase then 1 else 0
  }

  ghost function Divergences(commits: seq<Commit>): nat {
    if commits == [] then 0
    else Divergences(commits[..|commits| - 1]) + if commits[|commits| - 1].deltasInvalidated.Some? then 1 else 0
  }

  /** The epoch moves by one exactly with a recovery-base commit, and the divergence
      count exactly with a diverging one. */
  lemma {:induction false} StepCounts(b: BookState, i: Input)
    requires BookInv(b) && IsInput(i)
    ensures var e := Step(b, i);
            && e.book.continuity.epoch
               == b.continuity.epoch + (if e.commit.Some? && e.commit.value.recoveryBase then 1 else 0)
            && e.book.syncDivergences
               == b.syncDivergences + (if e.commit.Some? && e.commit.value.deltasInvalidated.Some? then 1 else 0)
            && (e.book.deltaRail <==> b.deltaRail || (i.ApplyDelta? && e.commit.Some?))
  {
    match i
    case ApplySnapshot(c) =>
      if SnapshotOutcome(b, c).Success? {
        var next, based, records := SnapshotParts(b, c);
        RebasedShape(b.continuity, Diverges(b, next));
      }
    case ApplyDelta(c) =>
      if DeltaOutcome(b, c).Success? {
        var records := DeltaParts(b, c);
      }
    case _ =>
  }

  /** Over any run of a new book: cursors are gapless and the book stands right after
      them, the epoch counts recovery bases, the divergence count counts diverging
      commits, and the delta rail is on exactly when a delta was accepted. */
  lemma {:induction false} CursorAllocation(market: MarketRef, inputs: seq<Input>)
    requires AllInputs(inputs)
    ensures var t := Run(NewBook(market), inputs);
            && BookInv(t.book)
            && Gapless(t.log)
            && Frontier(t.log, t.book.continuity)
            && t.book.continuity.epoch == Recoveries(t.commits)
            && t.book.syncDivergences == Divergences(t.commits)
            && (t.book.deltaRail <==> t.deltas > 0)
    decreases |inputs|
  {
    if inputs != [] {
      var prefix, last := inputs[..|inputs| - 1], inputs[|inputs| - 1];
      CursorAllocation(market, prefix);
      var t := Run(NewBook(market), prefix);
      StepKeeps(t.book, last);
      StepCounts(t.book, last);
      var e := Step(t.book, last);
      StepExtendsLog(t.book, t.log, e);
      if e.commit.Some? {
        CountsOneMore(t.commits, e.commit.value);
      }
    }
  }

  lemma {:induction false} CountsOneMore(commits: seq<Commit>, commit: Commit)
    ensures Recoveries(commits + [commit]) == Recoveries(commits) + (if commit.recoveryBase then 1 else 0)
    ensures Divergences(commits + [commit]) == Divergences(commits) + (if commit.deltasInvalidated.Some? then 1 else 0)
  {
    var all := commits + [commit];
    assert all[..|all| - 1] == commits && all[|all| - 1] == commit;
  }

  /** Restated on the cursors themselves: strictly increasing, never reused, each epoch
      contiguous from position 0. */
  lemma {:induction false} CursorsNeverRepeat(market: MarketRef, inputs: seq<Input>)
    requires AllInputs(inputs)
    ensures var log := Run(NewBook(market), inputs).log;
            && (forall i, j :: 0 <= i < j < |log| ==> Precedes(log[i].cursor, log[j].cursor))
            && (forall i, p :: 0 <= i < |log| && 0 <= p <= log[i].cursor.position ==>
                  exists j :: 0 <= j <= i && log[j].cursor == Cursor(log[i].cursor.epoch, p))
  {
    CursorAllocation(market, inputs);
    var log := Run(NewBook(market), inputs).log;
    forall i, j | 0 <= i < j < |log|
      ensures Precedes(log[i].cursor, log[j].cursor)
    {
      GaplessIncreases(log, i, j);
    }
    forall i, p | 0 <= i < |log| && 0 <= p <= log[i].cursor.position
      ensures exists j :: 0 <= j <= i && log[j].cursor == Cursor(log[i].cursor.epoch, p)
    {
      var j := GaplessFromZero(log, i, p);
    }
  }

  // ---------------------------------------------------------------------------------
  // The delta rail
  // ---------------------------------------------------------------------------------

  /** What a committed snapshot is on the delta rail: an agreeing checkpoint keeps the
      epoch, a diverging one opens the next and names the window it invalidated; neither
      emits anything. */
  lemma {:induction false} CheckpointIsNeverADiff(b: BookState, c: Candidate)
    requires BookInv(b) && IsCandidate(c) && b.deltaRail
    requires SnapshotOutcome(b, c).Success?
    ensures var e := Step(b, ApplySnapshot(c));
            var commit := e.commit.value;
            && e.commit.Some? && e.deliveries == [] && commit.records == []
            && (b.continuity.Intact? ==>
                  if SameDepth(b.levels, e.book.levels) then
                    && e.book.continuity == b.continuity
                    && !commit.recoveryBase && commit.deltasInvalidated.None?
                    && e.book.syncDivergences == b.syncDivergences
                  else
                    && e.book.continuity == Intact(b.continuity.epoch + 1, 0)
                    && commit.recoveryBase && commit.deltasInvalidated == Some(b.deltasSinceSnapshot)
                    && e.book.syncDivergences == b.syncDivergences + 1)
  {
    var next, based, records := SnapshotParts(b, c);
    RebasedShape(b.continuity, Diverges(b, next));
    EconomyIsDepth(b.levels, next);
  }

  /** Replaying an agreeing checkpoint, which is silent, gives the adopted map exactly
      when the venue restated the map held, zero-quantity levels included. */
  lemma {:induction false} AgreeingCheckpointReplays(b: BookState, c: Candidate)
    requires BookInv(b) && IsCandidate(c) && b.deltaRail && b.continuity.Intact?
    requires SnapshotOutcome(b, c).Success?
    requires SameDepth(b.levels, Admit(c.operation.levels).value)
    ensures var e := Step(b, ApplySnapshot(c));
            && e.book.continuity == b.continuity
            && (Replay(b.levels, e.deliveries) == e.book.levels <==> Tabulates(b.levels, c.operation.levels))
  {
    var next, based, records := SnapshotParts(b, c);
    CheckpointIsNeverADiff(b, c);
    AdmitMeaning(c.operation.levels);
    if Tabulates(b.levels, c.operation.levels) {
      TabulatesIsUnique(b.levels, next, c.operation.levels);
    }
  }

  ghost predicate IsDerived(d: Delivery) {
    d.Mutated? && d.mutation.provenance.origin == SnapshotDiff
  }

  lemma {:induction false} DeltaIsReported(b: BookState, c: Candidate)
    requires BookInv(b) && IsCandidate(c) && DeltaOutcome(b, c).Success?
    ensures forall d :: d in Step(b, ApplyDelta(c)).deliveries ==> !IsDerived(d)
  {
    var records := DeltaParts(b, c);
    CandidateLabels(c);
    var s := Stamp(c.provenance, b.revision + 1, b.continuity.epoch, b.continuity.nextPosition, SourceReportedDiff);
    var index := EmissionFacts(DeltaChanges(b.levels, c.operation.levels), s, records);
    RebaseIsTotal(s.source, s.revision, s.epoch, s.kind);
  }

  /** Once on the delta rail, a book never leaves it and never emits a derived mutation
      again, whatever inputs follow. */
  lemma {:induction false} RailIsForever(b: BookState, inputs: seq<Input>)
    requires BookInv(b) && b.deltaRail && AllInputs(inputs)
    ensures Run(b, inputs).book.deltaRail
    ensures forall d :: d in Run(b, inputs).log ==> !IsDerived(d)
    decreases |inputs|
  {
    if inputs != [] {
      var prefix, last := inputs[..|inputs| - 1], inputs[|inputs| - 1];
      RailIsForever(b, prefix);
      RunKeepsInv(b, prefix);
      var before := Run(b, prefix).book;
      StepCounts(before, last);
      if last.ApplyDelta? && DeltaOutcome(before, last.candidate).Success? {
        DeltaIsReported(before, last.candidate);
      }
      if last.ApplySnapshot? && SnapshotOutcome(before, last.candidate).Success? {
        CheckpointIsNeverADiff(before, last.candidate);
      }
    }
  }

  // ---------------------------------------------------------------------------------
  // Replay over a run
  // ---------------------------------------------------------------------------------

  lemma {:induction false} EpochNeverFalls(b: BookState, inputs: seq<Input>)
    requires BookInv(b) && AllInputs(inputs)
    ensures b.continuity.epoch <= Run(b, inputs).book.continuity.epoch
    decreases |inputs|
  {
    if inputs != [] {
      var prefix := inputs[..|inputs| - 1];
      EpochNeverFalls(b, prefix);
      RunKeepsInv(b, prefix);
      StepCounts(Run(b, prefix).book, inputs[|inputs| - 1]);
    }
  }

  lemma {:induction false} DepthIsTransitive(a: Levels, b: Levels, c: Levels)
    requires SameDepth(a, b) && SameDepth(b, c)
    ensures SameDepth(a, c)
  {
    forall at, q
      ensures Rests(a, at, q) <==> Rests(c, at, q)
    {
      assert Rests(a, at, q) <==> Rests(b, at, q);
    }
  }

  /** One more step of replay agreement. */
  lemma {:induction false} ReplayExtends(base: Levels, log: seq<Delivery>, b: BookState, e: Effect)
    requires ReplayStep(b, e) && b.provenance.Some? && e.book.continuity.epoch == b.continuity.epoch
    requires SameDepth(Replay(base, log), b.levels)
    requires !b.deltaRail ==> Replay(base, log) == b.levels
    ensures SameDepth(Replay(base, log + e.deliveries), e.book.levels)
    ensures !e.book.deltaRail ==> Replay(base, log + e.deliveries) == e.book.levels
  {
    ReplayConcat(base, log, e.deliveries);
    ReplayKeepsDepth(Replay(base, log), b.levels, e.deliveries);
    DepthIsTransitive(Replay(base, log + e.deliveries), Replay(b.levels, e.deliveries), e.book.levels);
  }

  /** From any established book, over any run that stays in its epoch, replaying the
      whole stream on the starting levels agrees with the final book: economically
      always, exactly when the book is off the delta rail. */
  lemma {:induction false} RunReplays(b: BookState, inputs: seq<Input>)
    requires BookInv(b) && b.provenance.Some? && AllInputs(inputs)
    ensures Run(b, inputs).book.provenance.Some?
    ensures var t := Run(b, inputs);
            t.book.continuity.epoch == b.continuity.epoch ==>
              && SameDepth(Replay(b.levels, t.log), t.book.levels)
              && (!t.book.deltaRail ==> Replay(b.levels, t.log) == t.book.levels)
    decreases |inputs|
  {
    if inputs != [] {
      var prefix, last := inputs[..|inputs| - 1], inputs[|inputs| - 1];
      RunReplays(b, prefix);
      RunKeepsInv(b, prefix);
      EpochNeverFalls(b, prefix);
      var t := Run(b, prefix);
      StepKeeps(t.book, last);
      StepCounts(t.book, last);
      if Step(t.book, last).book.continuity.epoch == b.continuity.epoch {
        ReplayExtends(b.levels, t.log, t.book, Step(t.book, last));
      }
    }
  }

  /** Whatever a book is fed, its published levels ascend, every one of them has a
      complement, and the complement view mirrored again is the published list. */
  lemma {:induction false} ReachableBookMirrors(market: MarketRef, inputs: seq<Input>)
    requires AllInputs(inputs)
    ensures var levels := View(Run(NewBook(market), inputs).book).levels;
            && AscendingLevels(levels) && AllComplementable(levels)
            && AscendingLevels(MirrorAll(levels)) && AllComplementable(MirrorAll(levels))
            && MirrorAll(MirrorAll(levels)) == levels
  {
    RunKeepsInv(NewBook(market), inputs);
    var m := Run(NewBook(market), inputs).book.levels;
    var levels := ListLevels(m);
    ListLevelsTabulates(m);
    forall i | 0 <= i < |levels|
      ensures Complementable(levels[i].at.price)
    {
      assert levels[i].at in m;
    }
    MirrorAllAscends(levels);
    MirrorAllTwice(levels);
  }
}
