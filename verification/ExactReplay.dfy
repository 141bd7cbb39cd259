/** Exactly when replaying the stream gives the stored map, zero-quantity levels included
    (src/book.rs). */
module ExactReplay {
  import opened Prelude
  import opened Decimals
  import opened Complement
  import opened Coordinates
  import opened Observation
  import opened Book
  import opened BookSteps
  import opened BookCommits
  import opened BookRuns

  /** A checkpoint committed on the delta rail restates the map held, zeros included; any
      other input does so trivially. */
  ghost predicate Restates(b: BookState, i: Input) {
    i.ApplySnapshot? && SnapshotOutcome(b, i.candidate).Success? && b.deltaRail ==>
      Tabulates(b.levels, i.candidate.operation.levels)
  }

  lemma {:induction false} QuietReplays(b: BookState, i: Input)
    requires !i.ApplySnapshot? && !i.ApplyDelta?
    ensures Replay(b.levels, Step(b, i).deliveries) == Step(b, i).book.levels
  {
    var d := Step(b, i).deliveries;
    if d != [] {
      assert d[..0] == [];
    }
  }

  /** One input on an established base, within the epoch, is replayed exactly if and only
      if it restates. */
  lemma {:induction false} StepReplaysExactly(b: BookState, i: Input)
    requires BookInv(b) && b.provenance.Some? && IsInput(i)
    requires Step(b, i).book.continuity.epoch == b.continuity.epoch
    ensures Replay(b.levels, Step(b, i).deliveries) == Step(b, i).book.levels <==> Restates(b, i)
  {
    match i
    case ApplySnapshot(c) =>
      if SnapshotOutcome(b, c).Success? {
        if b.deltaRail {
          CheckpointReplaysExactly(b, c);
        } else {
          SnapshotReplay(b, c);
        }
      }
    case ApplyDelta(c) =>
      if DeltaOutcome(b, c).Success? {
        DeltaReplaysExactly(b, c);
      }
    case _ => QuietReplays(b, i);
  }

  lemma {:induction false} CheckpointReplaysExactly(b: BookState, c: Candidate)
    requires BookInv(b) && b.provenance.Some? && IsCandidate(c) && b.deltaRail && SnapshotOutcome(b, c).Success?
    requires Step(b, ApplySnapshot(c)).book.continuity.epoch == b.continuity.epoch
    ensures var e := Step(b, ApplySnapshot(c));
            Replay(b.levels, e.deliveries) == e.book.levels <==> Tabulates(b.levels, c.operation.levels)
  {
    var next, based, records := SnapshotParts(b, c);
    RebasedShape(b.continuity, Diverges(b, next));
    EconomyIsDepth(b.levels, next);
    AgreeingCheckpointReplays(b, c);
  }

  lemma {:induction false} DeltaReplaysExactly(b: BookState, c: Candidate)
    requires IsCandidate(c) && BookInv(b) && DeltaOutcome(b, c).Success?
    ensures var e := Step(b, ApplyDelta(c));
            Replay(b.levels, e.deliveries) == e.book.levels
  {
    var records := DeltaParts(b, c);
    CandidateLabels(c);
    AdmitMeaning(c.operation.levels);
    var s := Stamp(c.provenance, b.revision + 1, b.continuity.epoch, b.continuity.nextPosition, SourceReportedDiff);
    var index := DeltaIsExact(b.levels, c.operation.levels, s, records, b.revision + 1);
  }

  ghost predicate ReplayedTo(b: BookState, inputs: seq<Input>) {
    Replay(b.levels, Run(b, inputs).log) == Run(b, inputs).book.levels
  }

  /** Replay is exact after the run and after every prefix of it. */
  ghost predicate AlwaysReplayed(b: BookState, inputs: seq<Input>) {
    ReplayedTo(b, inputs) && (inputs != [] ==> AlwaysReplayed(b, inputs[..|inputs| - 1]))
  }

  /** Every checkpoint the run commits on the delta rail restates what the book held. */
  ghost predicate AllRestate(b: BookState, inputs: seq<Input>) {
    inputs != [] ==>
      && AllRestate(b, inputs[..|inputs| - 1])
      && Restates(Run(b, inputs[..|inputs| - 1]).book, inputs[|inputs| - 1])
  }

  /** The last step of a run inside its epoch. */
  lemma {:induction false} LastReplaysExactly(b: BookState, prefix: seq<Input>, last: Input)
    requires BookInv(b) && b.provenance.Some? && AllInputs(prefix) && IsInput(last)
    requires ReplayedTo(b, prefix)
    requires var t := Run(b, prefix); Step(t.book, last).book.continuity.epoch == t.book.continuity.epoch
    ensures var t := Run(b, prefix);
            Replay(b.levels, t.log + Step(t.book, last).deliveries) == Step(t.book, last).book.levels
            <==> Restates(t.book, last)
  {
    var t := Run(b, prefix);
    RunReplays(b, prefix);
    RunKeepsInv(b, prefix);
    StepReplaysExactly(t.book, last);
    ReplayConcat(b.levels, t.log, Step(t.book, last).deliveries);
  }

  /** From any established book, over any run that stays in its epoch: replay is exact all
      along if and only if every checkpoint committed on the delta rail restated, zeros
      included, the map the book held. */
  lemma {:induction false} RunReplaysExactly(b: BookState, inputs: seq<Input>)
    requires BookInv(b) && b.provenance.Some? && AllInputs(inputs)
    requires Run(b, inputs).book.continuity.epoch == b.continuity.epoch
    ensures AlwaysReplayed(b, inputs) <==> AllRestate(b, inputs)
    decreases |inputs|
  {
    if inputs != [] {
      var prefix, last := inputs[..|inputs| - 1], inputs[|inputs| - 1];
      RunKeepsInv(b, prefix);
      EpochNeverFalls(b, prefix);
      StepCounts(Run(b, prefix).book, last);
      RunReplaysExactly(b, prefix);
      if AlwaysReplayed(b, prefix) {
        LastReplaysExactly(b, prefix, last);
      }
    }
  }

  // ---------------------------------------------------------------------------------
  // Exact again at the end
  // ---------------------------------------------------------------------------------

  /** The delivery is a mutation that sets or removes this coordinate. */
  predicate Settles(d: Delivery, c: Coordinate) {
    d.Mutated? &&
    (if d.mutation.after.Some? then d.mutation.after.value.at == c
     else d.mutation.before.Some? && d.mutation.before.value.at == c)
  }

  ghost predicate SettledIn(deliveries: seq<Delivery>, c: Coordinate) {
    exists k :: 0 <= k < |deliveries| && Settles(deliveries[k], c)
  }

  lemma {:induction false} SettlesForBoth(x: Levels, y: Levels, d: Delivery, c: Coordinate)
    requires d.Mutated?
    ensures Get(ApplyMutation(x, d.mutation), c) == Get(ApplyMutation(y, d.mutation), c) <==>
      Settles(d, c) || Get(x, c) == Get(y, c)
  {
  }

  lemma {:induction false} SettledOneMore(deliveries: seq<Delivery>, c: Coordinate)
    requires deliveries != []
    ensures SettledIn(deliveries, c) <==>
      SettledIn(deliveries[..|deliveries| - 1], c) || Settles(deliveries[|deliveries| - 1], c)
  {
    var n := |deliveries| - 1;
    if SettledIn(deliveries[..n], c) {
      var k :| 0 <= k < n && Settles(deliveries[..n][k], c);
      assert deliveries[k] == deliveries[..n][k];
    }
    if SettledIn(deliveries, c) {
      var k :| 0 <= k <= n && Settles(deliveries[k], c);
      assert k < n ==> deliveries[..n][k] == deliveries[k];
    }
  }

  /** One stream replayed on two maps agrees at a coordinate exactly when the maps did or
      the stream settles it. */
  lemma {:induction false} ReplayAgreesAt(x: Levels, y: Levels, deliveries: seq<Delivery>, c: Coordinate)
    ensures Get(Replay(x, deliveries), c) == Get(Replay(y, deliveries), c) <==>
      Get(x, c) == Get(y, c) || SettledIn(deliveries, c)
    decreases |deliveries|
  {
    if deliveries != [] {
      var earlier, last := deliveries[..|deliveries| - 1], deliveries[|deliveries| - 1];
      ReplayAgreesAt(x, y, earlier, c);
      SettledOneMore(deliveries, c);
      if last.Mutated? {
        SettlesForBoth(Replay(x, earlier), Replay(y, earlier), last, c);
      }
    }
  }

  lemma {:induction false} ReplayAgrees(x: Levels, y: Levels, deliveries: seq<Delivery>)
    ensures Replay(x, deliveries) == Replay(y, deliveries) <==>
      (forall c :: Get(x, c) != Get(y, c) ==> SettledIn(deliveries, c))
  {
    forall c
      ensures Get(Replay(x, deliveries), c) == Get(Replay(y, deliveries), c) <==>
        Get(x, c) == Get(y, c) || SettledIn(deliveries, c)
    {
      ReplayAgreesAt(x, y, deliveries, c);
    }
    if forall c :: Get(x, c) != Get(y, c) ==> SettledIn(deliveries, c) {
      SameMap(Replay(x, deliveries), Replay(y, deliveries));
    }
  }

  lemma {:induction false} RunConcat(b: BookState, first: seq<Input>, rest: seq<Input>)
    ensures var t, u := Run(b, first), Run(Run(b, first).book, rest);
            Run(b, first + rest).book == u.book && Run(b, first + rest).log == t.log + u.log
    decreases |rest|
  {
    if rest == [] {
      assert first + rest == first;
    } else {
      var earlier, last := rest[..|rest| - 1], rest[|rest| - 1];
      RunConcat(b, first, earlier);
      SplitsLast(first, rest);
      RunOneMore(b, first + earlier, last);
      RunOneMore(Run(b, first).book, earlier, last);
      ExtendsAlike(Run(b, first + earlier), Run(Run(b, first).book, earlier), Run(b, first).log, last);
    }
  }

  lemma {:induction false} SplitsLast(first: seq<Input>, rest: seq<Input>)
    requires rest != []
    ensures var earlier, last := rest[..|rest| - 1], rest[|rest| - 1];
            first + rest == (first + earlier) + [last] && rest == earlier + [last]
  {
  }

  lemma {:induction false} ExtendsAlike(whole: Trace, tail: Trace, log: seq<Delivery>, i: Input)
    requires whole.book == tail.book && whole.log == log + tail.log
    ensures Extend(whole, i).book == Extend(tail, i).book && Extend(whole, i).log == log + Extend(tail, i).log
  {
    Regroups(log, tail.log, Step(whole.book, i).deliveries);
  }

  lemma {:induction false} Regroups(a: seq<Delivery>, b: seq<Delivery>, c: seq<Delivery>)
    ensures a + b + c == a + (b + c)
  {
  }

  lemma {:induction false} AlwaysIsAlsoAtTheEnd(b: BookState, inputs: seq<Input>)
    requires AlwaysReplayed(b, inputs)
    ensures ReplayedTo(b, inputs)
  {
  }

  lemma {:induction false} AllInputsParts(first: seq<Input>, rest: seq<Input>)
    requires AllInputs(first + rest)
    ensures AllInputs(first) && AllInputs(rest)
  {
    assert forall k :: 0 <= k < |first| ==> (first + rest)[k] == first[k];
    assert forall k :: 0 <= k < |rest| ==> (first + rest)[|first| + k] == rest[k];
  }

  /** At the end of a run within its epoch, past the last checkpoint that did not restate
      the map held: replay is exact if and only if every coordinate at which the stream up
      to there and the map left there disagree is settled by a later mutation. */
  lemma {:induction false} EndReplaysExactly(b: BookState, first: seq<Input>, rest: seq<Input>)
    requires BookInv(b) && b.provenance.Some? && AllInputs(first + rest)
    requires Run(b, first + rest).book.continuity.epoch == b.continuity.epoch
    requires AllRestate(Run(b, first).book, rest)
    ensures var t := Run(b, first);
            ReplayedTo(b, first + rest) <==>
            (forall c :: Get(Replay(b.levels, t.log), c) != Get(t.book.levels, c) ==>
               SettledIn(Run(t.book, rest).log, c))
  {
    var t := Run(b, first);
    AllInputsParts(first, rest);
    RunConcat(b, first, rest);
    RunKeepsInv(b, first);
    RunReplays(b, first);
    EpochNeverFalls(b, first);
    EpochNeverFalls(t.book, rest);
    RunReplaysExactly(t.book, rest);
    AlwaysIsAlsoAtTheEnd(t.book, rest);
    var log := Run(t.book, rest).log;
    ReplayConcat(b.levels, t.log, log);
    ReplayAgrees(Replay(b.levels, t.log), t.book.levels, log);
  }

  // ---------------------------------------------------------------------------------
  // A run whose replay is not exact
  // ---------------------------------------------------------------------------------

  const PLAIN_MARKET := MarketRef("venue", "binary", "key")

  /** The provenance of a venue report with nothing remarkable about it. */
  const PLAIN := Provenance(
    PLAIN_MARKET, None, "book", None, [], 0, ("c", 0), 0, 0, 0, 0, 0, PublishingPrimary, VenueNative, SourceReported,
    0, 0)

  const NOTHING := Decimal(0, 0)

  function Report(levels: seq<Level>): Candidate {
    Candidate(PLAIN, Snapshot(levels))
  }

  lemma {:induction false} PlainIsAdmitted(levels: seq<Level>)
    ensures IsCandidate(Report(levels)) && IsCandidate(Candidate(PLAIN, SourceDelta(levels)))
  {
  }

  lemma {:induction false} OneLevelIsAdmitted(level: Level)
    requires Complementable(level.at.price)
    ensures Admit([level]) == Success(map[level.at := level.quantity])
    ensures Tabulates(map[level.at := level.quantity], [level])
  {
    RefusalIsComplement(level.at.price);
    ComplementShape(level.at.price);
    assert [level][..0] == [];
    assert [level][0].at == level.at;
  }

  /** An empty snapshot of a new book. */
  lemma {:induction false} OpensEmpty()
    ensures var e := Step(NewBook(PLAIN_MARKET), ApplySnapshot(Report([])));
            && e.book.levels == map[] && e.book.continuity == Intact(0, 0) && e.book.provenance.Some?
            && !e.book.deltaRail && e.deliveries == []
            && e.book.market == PLAIN_MARKET && e.book.revision == 1 && e.book.deltasSinceSnapshot == 0
  {
    PlainIsAdmitted([]);
    LatestIsTotal(PLAIN, 1, 0);
  }

  lemma {:induction false} NothingToEmit(at: Coordinate, s: Stamp)
    ensures var changes := DeltaChanges(map[], [Level(at, NOTHING)]);
            Changed(changes) == [] && Emit(changes, s) == Success([])
  {
    var changes := DeltaChanges(map[], [Level(at, NOTHING)]);
    assert changes == [Change(at, None, None)];
    assert changes[..0] == [];
    assert Emit([], s) == Success([]);
  }

  lemma {:induction false} FoldsToNothing(at: Coordinate)
    ensures Fold(map[], [Level(at, NOTHING)]) == map[]
  {
    assert [Level(at, NOTHING)][..0] == [];
  }

  /** A delta that removes what was not there changes nothing but turns the rail on. */
  lemma {:induction false} RemovesNothing(b: BookState, at: Coordinate)
    requires BookInv(b) && b.levels == map[] && b.continuity == Intact(0, 0) && b.provenance.Some?
    requires b.market == PLAIN_MARKET && b.revision == 1 && b.deltasSinceSnapshot == 0 && Complementable(at.price)
    ensures var e := Step(b, ApplyDelta(Candidate(PLAIN, SourceDelta([Level(at, NOTHING)]))));
            && e.book.levels == map[] && e.book.continuity == Intact(0, 0) && e.book.provenance.Some?
            && e.book.deltaRail && e.deliveries == [] && e.book.market == PLAIN_MARKET && e.book.revision == 2
  {
    var c := Candidate(PLAIN, SourceDelta([Level(at, NOTHING)]));
    PlainIsAdmitted(c.operation.levels);
    OneLevelIsAdmitted(c.operation.levels[0]);
    AdmitMeaning(c.operation.levels);
    NothingToEmit(at, Stamp(PLAIN, 2, 0, 0, SourceReportedDiff));
    DeltaAcceptedExactly(b, c);
    var records := DeltaParts(b, c);
    FoldsToNothing(at);
  }

  /** A checkpoint that mentions the level at zero is in agreement and is adopted. */
  lemma {:induction false} AdoptsZero(b: BookState, at: Coordinate)
    requires b.levels == map[] && b.continuity == Intact(0, 0) && b.provenance.Some? && b.market == PLAIN_MARKET
    requires b.revision == 2 && b.deltaRail && Complementable(at.price)
    ensures var e := Step(b, ApplySnapshot(Report([Level(at, NOTHING)])));
            && e.book.levels == map[at := NOTHING] && e.book.continuity == b.continuity && e.deliveries == []
  {
    var level := Level(at, NOTHING);
    OneLevelIsAdmitted(level);
    PlainIsAdmitted([level]);
    LatestIsTotal(PLAIN, 3, 0);
    assert Resting(map[at := NOTHING]) == map[];
    assert Resting(b.levels) == map[];
  }

  /** So replay is not always exact: an empty snapshot, a delta removing an absent level
      and a checkpoint naming that level at zero leave it in the book, in one epoch, with
      nothing on the stream. */
  lemma {:induction false} ZeroLevelIsAdoptedSilently(at: Coordinate)
    requires Complementable(at.price)
    ensures var inputs := [ApplySnapshot(Report([])), ApplyDelta(Candidate(PLAIN, SourceDelta([Level(at, NOTHING)]))),
                           ApplySnapshot(Report([Level(at, NOTHING)]))];
            var t := Run(NewBook(PLAIN_MARKET), inputs);
            && AllInputs(inputs)
            && t.log == [] && t.book.continuity == Intact(0, 0)
            && t.book.levels == map[at := NOTHING]
            && at !in Replay(Run(NewBook(PLAIN_MARKET), inputs[..1]).book.levels, t.log)
  {
    var first := ApplySnapshot(Report([]));
    var second := ApplyDelta(Candidate(PLAIN, SourceDelta([Level(at, NOTHING)])));
    var third := ApplySnapshot(Report([Level(at, NOTHING)]));
    var b := NewBook(PLAIN_MARKET);
    PlainIsAdmitted([]);
    PlainIsAdmitted([Level(at, NOTHING)]);
    RunOfThree(b, first, second, third);
    ZeroInThreeSteps(b, first, second, third, at);
  }

  lemma {:induction false} ZeroInThreeSteps(b: BookState, first: Input, second: Input, third: Input, at: Coordinate)
    requires Complementable(at.price) && b == NewBook(PLAIN_MARKET)
    requires first == ApplySnapshot(Report([]))
    requires second == ApplyDelta(Candidate(PLAIN, SourceDelta([Level(at, NOTHING)])))
    requires third == ApplySnapshot(Report([Level(at, NOTHING)]))
    ensures var x := Step(b, first);
            var y := Step(x.book, second);
            var z := Step(y.book, third);
            && x.book.levels == map[] && z.book.levels == map[at := NOTHING] && z.book.continuity == Intact(0, 0)
            && x.deliveries == [] && y.deliveries == [] && z.deliveries == []
  {
    PlainIsAdmitted([]);
    OpensEmpty();
    StepKeeps(b, first);
    RemovesNothing(Step(b, first).book, at);
    AdoptsZero(Step(Step(b, first).book, second).book, at);
  }

  lemma {:induction false} RunOfThree(b: BookState, first: Input, second: Input, third: Input)
    ensures var inputs := [first, second, third];
            var x := Step(b, first);
            var y := Step(x.book, second);
            var z := Step(y.book, third);
            && Run(b, inputs[..1]).book == x.book
            && Run(b, inputs).book == z.book
            && Run(b, inputs).log == x.deliveries + y.deliveries + z.deliveries
  {
    var inputs := [first, second, third];
    RunOfOne(b, first);
    RunOneMore(b, [first], second);
    RunOneMore(b, [first, second], third);
    assert [first] + [second] == [first, second] && [first, second] + [third] == inputs;
    assert inputs[..1] == [first];
  }

  lemma {:induction false} RunOfOne(b: BookState, i: Input)
    ensures Run(b, [i]).book == Step(b, i).book && Run(b, [i]).log == Step(b, i).deliveries
  {
    RunOneMore(b, [], i);
    assert [] + [i] == [i];
    assert [] + Step(b, i).deliveries == Step(b, i).deliveries;
  }

  lemma {:induction false} RunOneMore(b: BookState, inputs: seq<Input>, i: Input)
    ensures Run(b, inputs + [i]) == Extend(Run(b, inputs), i)
  {
    var all := inputs + [i];
    assert all[..|all| - 1] == inputs && all[|all| - 1] == i;
  }
}
