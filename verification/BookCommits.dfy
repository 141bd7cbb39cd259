/** The main facts about one commit: the snapshot difference is exact and minimal, the
    delta commit is the venue's own fold, refusals are exactly the documented ones. */
module BookCommits {
  import opened Prelude
  import opened Complement
  import opened Coordinates
  import opened Observation
  import opened Book
  import opened BookSteps

  /** The 64-bit fields of a book that exists. */
  ghost predicate Fits(b: BookState) {
    && b.revision <= U64_MAX
    && b.deltasSinceSnapshot <= U64_MAX
    && b.syncDivergences <= U64_MAX
    && b.continuity.epoch <= U64_MAX
    && (b.continuity.Intact? ==> b.continuity.nextPosition <= U64_MAX)
  }

  /** The coordinate a mutation names. */
  function At(m: Mutation): Coordinate
    requires m.before.Some? || m.after.Some?
  {
    if m.after.Some? then m.after.value.at else m.before.value.at
  }

  predicate Named(r: Record) {
    r.mutation.before.Some? || r.mutation.after.Some?
  }

  ghost predicate RecordsChange(r: Record, change: Change) {
    && change.before != change.after
    && r.mutation.before == LevelAt(change.at, change.before)
    && r.mutation.after == LevelAt(change.at, change.after)
  }

  ghost predicate Consecutive(records: seq<Record>, first: Cursor) {
    forall k :: 0 <= k < |records| ==> records[k].cursor == Cursor(first.epoch, first.position + k)
  }

  /** The record names `c` and says how `next` differs from `previous` there. */
  ghost predicate DiffersAt(r: Record, previous: Levels, next: Levels, c: Coordinate) {
    && RecordsChange(r, Change(c, Get(previous, c), Get(next, c)))
    && Named(r) && At(r.mutation) == c
  }

  /** `records` says of `next` exactly how it differs from `previous`. */
  ghost predicate DescribesDifference(records: seq<Record>, previous: Levels, next: Levels) {
    && (forall r :: r in records ==> exists c :: DiffersAt(r, previous, next, c))
    && (forall c :: Get(previous, c) != Get(next, c) ==> exists r :: r in records && DiffersAt(r, previous, next, c))
  }

  ghost predicate RecordedBefore(r: Record, t: Record) {
    Named(r) && Named(t) && Before(At(r.mutation), At(t.mutation))
  }

  ghost predicate StrictlyAscending(records: seq<Record>) {
    forall k, l :: 0 <= k < l < |records| ==> RecordedBefore(records[k], records[l])
  }

  // ---------------------------------------------------------------------------------
  // Emission of a list of distinct, truthful changes
  // ---------------------------------------------------------------------------------

  /** `index` picks, in order, the entries of `changes` that change something. */
  ghost predicate PicksChanged(index: seq<nat>, changes: seq<Change>) {
    && (forall k :: 0 <= k < |index| ==> index[k] < |changes|)
    && (forall k, l :: 0 <= k < l < |index| ==> index[k] < index[l])
    && (forall i :: 0 <= i < |changes| && changes[i].before != changes[i].after ==> i in index)
  }

  /** Emitted records are the changed entries, in order and at consecutive positions. */
  lemma {:induction false} EmissionFacts(changes: seq<Change>, s: Stamp, records: seq<Record>)
    returns (index: seq<nat>)
    requires IsStamp(s) && s.first <= U64_MAX
    requires Emit(changes, s) == Success(records)
    ensures Consecutive(records, Cursor(s.epoch, s.first))
    ensures PicksChanged(index, changes) && |index| == |records|
    ensures forall k :: 0 <= k < |records| ==> RecordsChange(records[k], changes[index[k]])
    ensures forall k :: 0 <= k < |records| ==> records[k].mutation.provenance == StampProvenance(s)
  {
    EmitMeaning(changes, s);
    index := ChangedIsSubsequence(changes);
  }

  /** Replaying the records of distinct, truthful changes has the effect of them all. */
  lemma {:induction false} EmissionReplays(m: Levels, changes: seq<Change>, s: Stamp, records: seq<Record>,
                                           revision: nat)
    requires IsStamp(s) && s.first <= U64_MAX
    requires DistinctChanges(changes) && Truthful(m, changes)
    requires Emit(changes, s) == Success(records)
    ensures Replay(m, Deliveries(revision, records)) == ApplyChanges(m, changes)
  {
    EmitMeaning(changes, s);
    var index := ChangedIsSubsequence(changes);
    ReplayAppliesChanges(m, Changed(changes), StampProvenance(s), s.epoch, s.first, revision);
    SkipUnchanged(m, changes);
  }

  // ---------------------------------------------------------------------------------
  // Snapshot differences
  // ---------------------------------------------------------------------------------

  lemma {:induction false} AscendingAreDistinct(coordinates: seq<Coordinate>, i: nat, j: nat)
    requires Ascending(coordinates) && i < j < |coordinates|
    ensures coordinates[i] != coordinates[j]
  {
    BeforeIsStrictTotal(coordinates[i], coordinates[j], coordinates[j]);
  }

  lemma {:induction false} DiffIsDistinct(previous: Levels, next: Levels)
    ensures DistinctChanges(DiffChanges(previous, next))
    ensures Truthful(previous, DiffChanges(previous, next))
  {
    var s := Sorted(previous.Keys + next.Keys);
    forall i, j | 0 <= i < j < |s|
      ensures s[i] != s[j]
    {
      AscendingAreDistinct(s, i, j);
    }
  }

  lemma {:induction false} DiffCovers(previous: Levels, next: Levels, c: Coordinate) returns (i: nat)
    requires c in previous || c in next
    ensures i < |DiffChanges(previous, next)|
    ensures DiffChanges(previous, next)[i] == Change(c, Get(previous, c), Get(next, c))
  {
    var s := Sorted(previous.Keys + next.Keys);
    assert c in Elements(s);
    i :| 0 <= i < |s| && s[i] == c;
  }

  lemma {:induction false} DiffApplies(previous: Levels, next: Levels)
    ensures ApplyChanges(previous, DiffChanges(previous, next)) == next
  {
    var changes := DiffChanges(previous, next);
    DiffIsDistinct(previous, next);
    forall c
      ensures Get(ApplyChanges(previous, changes), c) == Get(next, c)
    {
      if c in previous || c in next {
        var i := DiffCovers(previous, next, c);
        Touched(previous, changes, i);
      } else {
        var s := Sorted(previous.Keys + next.Keys);
        forall i | 0 <= i < |changes|
          ensures changes[i].at != c
        {
          assert s[i] in Elements(s);
        }
        Untouched(previous, changes, c);
      }
    }
    SameMap(ApplyChanges(previous, changes), next);
  }

  lemma {:induction false} DiffDescribes(
      previous: Levels, next: Levels, records: seq<Record>, index: seq<nat>)
    requires PicksChanged(index, DiffChanges(previous, next)) && |index| == |records|
    requires forall k :: 0 <= k < |records| ==> RecordsChange(records[k], DiffChanges(previous, next)[index[k]])
    ensures DescribesDifference(records, previous, next)
  {
    var changes := DiffChanges(previous, next);
    forall r | r in records
      ensures exists c :: DiffersAt(r, previous, next, c)
    {
      var k :| 0 <= k < |records| && records[k] == r;
      NamedAt(r, changes[index[k]]);
      assert DiffersAt(r, previous, next, changes[index[k]].at);
    }
    forall c | Get(previous, c) != Get(next, c)
      ensures exists r :: r in records && DiffersAt(r, previous, next, c)
    {
      var i := DiffCovers(previous, next, c);
      var k :| 0 <= k < |index| && index[k] == i;
      NamedAt(records[k], changes[i]);
      assert records[k] in records && DiffersAt(records[k], previous, next, c);
    }
  }

  lemma {:induction false} DiffAscends(
      previous: Levels, next: Levels, records: seq<Record>, index: seq<nat>)
    requires PicksChanged(index, DiffChanges(previous, next)) && |index| == |records|
    requires forall k :: 0 <= k < |records| ==> RecordsChange(records[k], DiffChanges(previous, next)[index[k]])
    ensures StrictlyAscending(records)
  {
    var changes := DiffChanges(previous, next);
    var s := Sorted(previous.Keys + next.Keys);
    forall k, l | 0 <= k < l < |records|
      ensures RecordedBefore(records[k], records[l])
    {
      NamedAt(records[k], changes[index[k]]);
      NamedAt(records[l], changes[index[l]]);
      assert Before(s[index[k]], s[index[l]]);
    }
  }

  lemma {:induction false} NamedAt(r: Record, change: Change)
    requires RecordsChange(r, change)
    ensures Named(r) && At(r.mutation) == change.at
  {
  }

  /** The derived mutations are the exact, minimal, ascending difference of the two maps,
      at consecutive positions, and replaying them turns one map into the other. */
  lemma {:induction false} DiffIsExact(previous: Levels, next: Levels, s: Stamp, records: seq<Record>, revision: nat)
    requires IsStamp(s) && s.first <= U64_MAX
    requires Emit(DiffChanges(previous, next), s) == Success(records)
    ensures DescribesDifference(records, previous, next)
    ensures StrictlyAscending(records)
    ensures Consecutive(records, Cursor(s.epoch, s.first))
    ensures forall k :: 0 <= k < |records| ==>
      records[k].mutation.provenance == StampProvenance(s)
    ensures Replay(previous, Deliveries(revision, records)) == next
  {
    var changes := DiffChanges(previous, next);
    var index := EmissionFacts(changes, s, records);
    DiffDescribes(previous, next, records, index);
    DiffAscends(previous, next, records, index);
    DiffIsDistinct(previous, next);
    DiffApplies(previous, next);
    EmissionReplays(previous, changes, s, records, revision);
  }

  // ---------------------------------------------------------------------------------
  // Venue deltas
  // ---------------------------------------------------------------------------------

  lemma {:induction false} FoldAppliesDelta(m: Levels, held: Levels, levels: seq<Level>)
    ensures Fold(m, levels) == ApplyChanges(m, DeltaChanges(held, levels))
    decreases |levels|
  {
    if levels != [] {
      var prefix := levels[..|levels| - 1];
      FoldAppliesDelta(m, held, prefix);
      var changes := DeltaChanges(held, levels);
      assert changes[..|changes| - 1] == DeltaChanges(held, prefix);
    }
  }

  lemma {:induction false} ZeroRemoves(q: Quantity)
    ensures DeltaValue(q) == if q.coefficient == 0 then None else Some(q)
  {
  }

  /** The map holds exactly what the level reports: its quantity, or nothing for zero. */
  ghost predicate Shows(m: Levels, level: Level) {
    && (level.quantity.coefficient != 0 ==> level.at in m && m[level.at] == level.quantity)
    && (level.quantity.coefficient == 0 ==> level.at !in m)
  }

  lemma {:induction false} ShowsByValue(m: Levels, level: Level)
    ensures Shows(m, level) <==> Get(m, level.at) == DeltaValue(level.quantity)
  {
    ZeroRemoves(level.quantity);
  }

  /** After a fold every reported coordinate holds the reported quantity, or nothing when
      that is zero, and every other coordinate keeps its own. */
  lemma {:induction false} FoldMeaning(m: Levels, levels: seq<Level>)
    requires DistinctLevels(levels)
    ensures forall i :: 0 <= i < |levels| ==> Shows(Fold(m, levels), levels[i])
    ensures forall c :: (forall i :: 0 <= i < |levels| ==> levels[i].at != c) ==> Get(Fold(m, levels), c) == Get(m, c)
  {
    var changes := DeltaChanges(m, levels);
    FoldAppliesDelta(m, m, levels);
    forall i | 0 <= i < |levels|
      ensures Shows(Fold(m, levels), levels[i])
    {
      Touched(m, changes, i);
      ShowsByValue(Fold(m, levels), levels[i]);
    }
    forall c | forall i :: 0 <= i < |levels| ==> levels[i].at != c
      ensures Get(Fold(m, levels), c) == Get(m, c)
    {
      Untouched(m, changes, c);
    }
  }

  /** The record of a reported level: what was held at its coordinate, and the level
      itself, or nothing for zero. */
  ghost predicate RecordsReport(r: Record, held: Levels, level: Level) {
    && r.mutation.before == (if level.at in held then Some(Level(level.at, held[level.at])) else None)
    && r.mutation.after == (if level.quantity.coefficient == 0 then None else Some(level))
  }

  lemma {:induction false} ChangeIsReport(r: Record, held: Levels, level: Level)
    requires RecordsChange(r, Change(level.at, Get(held, level.at), DeltaValue(level.quantity)))
    ensures RecordsReport(r, held, level) && !Shows(held, level)
  {
    ShowsByValue(held, level);
    ZeroRemoves(level.quantity);
  }

  /** A reported delta emits, in the venue's order and at consecutive positions, exactly
      the levels the book does not already show, each with what was held and what is
      reported, labelled as the venue's; replaying them gives the folded map. */
  lemma {:induction false} DeltaIsExact(held: Levels, levels: seq<Level>, s: Stamp, records: seq<Record>, revision: nat)
    returns (index: seq<nat>)
    requires IsStamp(s) && s.kind == SourceReportedDiff && s.first <= U64_MAX && DistinctLevels(levels)
    requires Emit(DeltaChanges(held, levels), s) == Success(records)
    ensures Consecutive(records, Cursor(s.epoch, s.first))
    ensures |index| == |records|
    ensures forall k, l :: 0 <= k < l < |index| ==> index[k] < index[l]
    ensures forall k :: 0 <= k < |index| ==>
      index[k] < |levels| && !Shows(held, levels[index[k]]) && RecordsReport(records[k], held, levels[index[k]])
    ensures forall i :: 0 <= i < |levels| && !Shows(held, levels[i]) ==> i in index
    ensures forall k :: 0 <= k < |records| ==>
      records[k].mutation.provenance == s.source.(localRevision := s.revision, continuityEpoch := s.epoch)
    ensures Replay(held, Deliveries(revision, records)) == Fold(held, levels)
  {
    FoldAppliesDelta(held, held, levels);
    index := EmissionFacts(DeltaChanges(held, levels), s, records);
    RebaseIsTotal(s.source, s.revision, s.epoch, s.kind);
    forall k | 0 <= k < |index|
      ensures index[k] < |levels| && !Shows(held, levels[index[k]])
      ensures RecordsReport(records[k], held, levels[index[k]])
    {
      ChangeIsReport(records[k], held, levels[index[k]]);
    }
    forall i | 0 <= i < |levels| && !Shows(held, levels[i])
      ensures i in index
    {
      ShowsByValue(held, levels[i]);
    }
    EmissionReplays(held, DeltaChanges(held, levels), s, records, revision);
  }

  // ---------------------------------------------------------------------------------
  // Accepted exactly when, and refused with what
  // ---------------------------------------------------------------------------------

  ghost predicate InternalError(e: BookError) {
    e.ProvenanceFailed? || e.MutationFailed? || e == ContinuityFailed(InvalidTransition)
  }

  lemma {:induction false} LatestIsTotal(source: Provenance, revision: nat, epoch: nat)
    requires NewProvenance(source) == Success(source)
    ensures LatestProvenance(source, revision, epoch).Success?
  {
    RebaseIsTotal(source, revision, epoch, LatestState);
  }

  /** How many mutations a snapshot derives. */
  ghost function DerivedCount(b: BookState, next: Levels): nat {
    if b.continuity.Intact? && b.provenance.Some? && !b.deltaRail then |Differing(b.levels, next)| else 0
  }

  /** The coordinates at which two maps differ. */
  ghost function Differing(previous: Levels, next: Levels): set<Coordinate> {
    set c | c in previous.Keys + next.Keys && Get(previous, c) != Get(next, c)
  }

  ghost function DifferingIn(s: seq<Coordinate>, previous: Levels, next: Levels): set<Coordinate> {
    set c | c in s && Get(previous, c) != Get(next, c)
  }

  lemma {:induction false} DifferingOneMore(s: seq<Coordinate>, last: Coordinate, previous: Levels, next: Levels)
    requires last !in s
    ensures |DifferingIn(s + [last], previous, next)|
         == |DifferingIn(s, previous, next)| + if Get(previous, last) != Get(next, last) then 1 else 0
  {
    var before, after := DifferingIn(s, previous, next), DifferingIn(s + [last], previous, next);
    if Get(previous, last) != Get(next, last) {
      assert after == before + {last};
    } else {
      assert after == before;
    }
  }

  lemma {:induction false} ChangedOneMore(s: seq<Coordinate>, last: Coordinate, previous: Levels, next: Levels)
    ensures |Changed(ChangesAt(s + [last], previous, next))|
         == |Changed(ChangesAt(s, previous, next))| + if Get(previous, last) != Get(next, last) then 1 else 0
  {
    var all := ChangesAt(s + [last], previous, next);
    assert all[..|s|] == ChangesAt(s, previous, next);
    assert all[|s|] == Change(last, Get(previous, last), Get(next, last));
  }

  lemma {:induction false} ChangedCounts(s: seq<Coordinate>, previous: Levels, next: Levels)
    requires Ascending(s)
    ensures |Changed(ChangesAt(s, previous, next))| == |DifferingIn(s, previous, next)|
    decreases |s|
  {
    if s == [] {
      assert DifferingIn(s, previous, next) == {};
    } else {
      var earlier, last := s[..|s| - 1], s[|s| - 1];
      LastIsNew(s);
      ChangedCounts(earlier, previous, next);
      assert s == earlier + [last];
      ChangedOneMore(earlier, last, previous, next);
      DifferingOneMore(earlier, last, previous, next);
    }
  }

  lemma {:induction false} LastIsNew(s: seq<Coordinate>)
    requires Ascending(s) && s != []
    ensures s[|s| - 1] !in s[..|s| - 1]
  {
    var last := s[|s| - 1];
    if last in s[..|s| - 1] {
      var i :| 0 <= i < |s| - 1 && s[i] == last;
      BeforeIsStrictTotal(last, last, last);
    }
  }

  lemma {:induction false} DifferingAreChanges(previous: Levels, next: Levels)
    ensures |Changed(DiffChanges(previous, next))| == |Differing(previous, next)|
  {
    var s := Sorted(previous.Keys + next.Keys);
    ChangedCounts(s, previous, next);
    assert forall c :: c in s <==> c in Elements(s);
    assert DifferingIn(s, previous, next) == Differing(previous, next);
  }

  ghost predicate SnapshotAcceptable(b: BookState, c: Candidate) {
    && c.provenance.market == b.market
    && c.operation.Snapshot?
    && AllComplementable(c.operation.levels)
    && DistinctLevels(c.operation.levels)
    && b.revision < U64_MAX
    && (AdmitMeaning(c.operation.levels);
        var next := Admit(c.operation.levels).value;
        && (Diverges(b, next) ==> b.syncDivergences < U64_MAX)
        && (if b.continuity.Lost? || Diverges(b, next) then b.continuity.epoch < U64_MAX
            else b.continuity.nextPosition + DerivedCount(b, next) <= U64_MAX))
  }

  lemma {:induction false} SnapshotRecordsCount(b: BookState, source: Provenance, next: Levels, continuity: Continuity)
    requires NewProvenance(source) == Success(source) && continuity.Intact? && continuity.nextPosition <= U64_MAX
    ensures var records := SnapshotRecords(b, next, source, continuity);
            && (records.Success? <==> continuity.nextPosition + DerivedCount(b, next) <= U64_MAX + 1)
            && (records.Success? ==> |records.value| == DerivedCount(b, next))
            && (records.Failure? ==> records.error == CounterOverflow)
  {
    if Derives(b) {
      DifferingAreChanges(b.levels, next);
      EmittedCount(DiffChanges(b.levels, next),
                   Stamp(source, b.revision + 1, continuity.epoch, continuity.nextPosition, DerivedDiff));
    }
  }

  lemma {:induction false} EmittedCount(changes: seq<Change>, s: Stamp)
    requires IsStamp(s) && s.first <= U64_MAX
    ensures Emit(changes, s).Success? <==> s.first + |Changed(changes)| <= U64_MAX + 1
    ensures Emit(changes, s).Success? ==> |Emit(changes, s).value| == |Changed(changes)|
    ensures Emit(changes, s).Failure? ==> Emit(changes, s).error == CounterOverflow
  {
    EmitMeaning(changes, s);
  }

  lemma {:induction false} SnapshotCommits(b: BookState, source: Provenance, next: Levels, continuity: Continuity)
    requires NewProvenance(source) == Success(source) && continuity.Intact? && continuity.nextPosition <= U64_MAX
    ensures CommitSnapshot(b, source, next, continuity).Success?
       <==> continuity.nextPosition + DerivedCount(b, next) <= U64_MAX
    ensures CommitSnapshot(b, source, next, continuity).Failure? ==>
      !InternalError(CommitSnapshot(b, source, next, continuity).error)
  {
    LatestIsTotal(source, b.revision + 1, continuity.epoch);
    SnapshotRecordsCount(b, source, next, continuity);
  }

  /** A snapshot is accepted exactly when its market, kind and levels are in order and no
      64-bit counter would overflow; the wrapped internal errors never occur. */
  lemma {:induction false} SnapshotAcceptedExactly(b: BookState, c: Candidate)
    requires IsCandidate(c) && Fits(b)
    ensures SnapshotOutcome(b, c).Success? <==> SnapshotAcceptable(b, c)
    ensures SnapshotOutcome(b, c).Failure? ==> !InternalError(SnapshotOutcome(b, c).error)
  {
    if c.provenance.market == b.market && c.operation.Snapshot? {
      AdmitMeaning(c.operation.levels);
      if Admit(c.operation.levels).Success? {
        var next := Admit(c.operation.levels).value;
        var rebased := Rebased(b.continuity, Diverges(b, next));
        if rebased.Success? {
          SnapshotCommits(b, c.provenance, next, rebased.value);
        }
      } else {
        AdmitErrors(c.operation.levels);
      }
    }
  }

  lemma {:induction false} AdmitErrors(levels: seq<Level>)
    requires Admit(levels).Failure?
    ensures !InternalError(Admit(levels).error)
    decreases |levels|
  {
    var prefix := levels[..|levels| - 1];
    if Admit(prefix).Failure? {
      AdmitErrors(prefix);
    }
  }

  ghost predicate DeltaAcceptable(b: BookState, c: Candidate) {
    && c.provenance.market == b.market
    && c.operation.SourceDelta?
    && c.operation.levels != []
    && b.provenance.Some?
    && b.continuity.Intact?
    && AllComplementable(c.operation.levels)
    && DistinctLevels(c.operation.levels)
    && b.revision < U64_MAX
    && b.deltasSinceSnapshot < U64_MAX
    && b.continuity.nextPosition + NewsCount(b.levels, c.operation.levels) <= U64_MAX
  }

  /** How many of the levels the map does not already show. */
  ghost function NewsCount(m: Levels, levels: seq<Level>): nat {
    if levels == [] then 0
    else NewsCount(m, levels[..|levels| - 1]) + if Shows(m, levels[|levels| - 1]) then 0 else 1
  }

  lemma {:induction false} NewsAreChanges(m: Levels, levels: seq<Level>)
    ensures |Changed(DeltaChanges(m, levels))| == NewsCount(m, levels)
    decreases |levels|
  {
    if levels != [] {
      var earlier, last := levels[..|levels| - 1], levels[|levels| - 1];
      NewsAreChanges(m, earlier);
      ShowsByValue(m, last);
      assert DeltaChanges(m, levels)[..|levels| - 1] == DeltaChanges(m, earlier);
    }
  }

  lemma {:induction false} DeltaCommits(b: BookState, source: Provenance, levels: seq<Level>)
    requires NewProvenance(source) == Success(source) && source.origin == SourceReported
    requires b.continuity.Intact? && b.continuity.nextPosition <= U64_MAX && b.deltasSinceSnapshot <= U64_MAX
    ensures CommitDelta(b, source, levels).Success?
       <==> && b.deltasSinceSnapshot < U64_MAX
            && b.continuity.nextPosition + NewsCount(b.levels, levels) <= U64_MAX
    ensures CommitDelta(b, source, levels).Failure? ==> !InternalError(CommitDelta(b, source, levels).error)
  {
    LatestIsTotal(source, b.revision + 1, b.continuity.epoch);
    NewsAreChanges(b.levels, levels);
    EmitMeaning(DeltaChanges(b.levels, levels),
                Stamp(source, b.revision + 1, b.continuity.epoch, b.continuity.nextPosition, SourceReportedDiff));
  }

  /** The same for a venue delta. */
  lemma {:induction false} DeltaAcceptedExactly(b: BookState, c: Candidate)
    requires IsCandidate(c) && Fits(b)
    ensures DeltaOutcome(b, c).Success? <==> DeltaAcceptable(b, c)
    ensures DeltaOutcome(b, c).Failure? ==> !InternalError(DeltaOutcome(b, c).error)
  {
    DeltaAcceptance(b, c);
    DeltaRefusals(b, c);
  }

  /** The checks before the commit, and what is left to it. */
  ghost predicate DeltaReaches(b: BookState, c: Candidate) {
    && c.provenance.market == b.market && c.operation.SourceDelta? && c.operation.levels != []
    && b.provenance.Some? && b.continuity.Intact?
    && Admit(c.operation.levels).Success? && b.revision != U64_MAX
  }

  lemma {:induction false} DeltaReachesCommit(b: BookState, c: Candidate)
    requires DeltaReaches(b, c)
    ensures DeltaOutcome(b, c) == CommitDelta(b, c.provenance, c.operation.levels)
  {
  }

  lemma {:induction false} DeltaStopsEarly(b: BookState, c: Candidate)
    requires !DeltaReaches(b, c)
    ensures DeltaOutcome(b, c).Failure? && !InternalError(DeltaOutcome(b, c).error)
  {
    if Admit(c.operation.levels).Failure? {
      AdmitErrors(c.operation.levels);
    }
  }

  lemma {:induction false} DeltaAcceptance(b: BookState, c: Candidate)
    requires IsCandidate(c) && Fits(b)
    ensures DeltaOutcome(b, c).Success? <==> DeltaAcceptable(b, c)
  {
    AdmitMeaning(c.operation.levels);
    if DeltaReaches(b, c) {
      DeltaReachesCommit(b, c);
      SourceIsReported(c);
      DeltaCommits(b, c.provenance, c.operation.levels);
    } else {
      DeltaStopsEarly(b, c);
    }
  }

  lemma {:induction false} DeltaRefusals(b: BookState, c: Candidate)
    requires IsCandidate(c) && Fits(b)
    ensures DeltaOutcome(b, c).Failure? ==> !InternalError(DeltaOutcome(b, c).error)
  {
    if DeltaReaches(b, c) {
      DeltaReachesCommit(b, c);
      SourceIsReported(c);
      DeltaCommits(b, c.provenance, c.operation.levels);
    } else {
      DeltaStopsEarly(b, c);
    }
  }

  lemma {:induction false} SourceIsReported(c: Candidate)
    requires IsCandidate(c) && c.operation.SourceDelta?
    ensures NewProvenance(c.provenance) == Success(c.provenance) && c.provenance.origin == SourceReported
  {
  }

  // ---------------------------------------------------------------------------------
  // Replay respects economic equality
  // ---------------------------------------------------------------------------------

  /** A nonzero quantity rests at the coordinate. */
  ghost predicate Rests(m: Levels, c: Coordinate, q: Quantity) {
    q.coefficient != 0 && c in m && m[c] == q
  }

  /** The same nonzero quantities rest at the same coordinates, on both sides. */
  ghost predicate SameDepth(a: Levels, b: Levels) {
    forall c, q :: Rests(a, c, q) <==> Rests(b, c, q)
  }

  /** Economic equality is equal depth: nothing but exact zeros is disregarded. */
  lemma {:induction false} EconomyIsDepth(a: Levels, b: Levels)
    ensures EconomicallyEqual(a, b) <==> SameDepth(a, b)
  {
    var x, y := Resting(a), Resting(b);
    if x == y {
      forall c, q
        ensures Rests(a, c, q) <==> Rests(b, c, q)
      {
        assert Rests(a, c, q) <==> c in x && x[c] == q;
        assert Rests(b, c, q) <==> c in y && y[c] == q;
      }
    }
    if SameDepth(a, b) {
      forall c
        ensures c in x <==> c in y
        ensures c in x && c in y ==> x[c] == y[c]
      {
        if c in x {
          assert Rests(a, c, a[c]);
        }
        if c in y {
          assert Rests(b, c, b[c]);
        }
      }
    }
  }

  lemma {:induction false} PutKeepsEconomy(a: Levels, b: Levels, c: Coordinate, q: Option<Quantity>)
    requires EconomicallyEqual(a, b)
    ensures EconomicallyEqual(Put(a, c, q), Put(b, c, q))
  {
    var x, y := Resting(Put(a, c, q)), Resting(Put(b, c, q));
    forall d
      ensures d in x <==> d in y
      ensures d in x && d in y ==> x[d] == y[d]
    {
      assert d in Resting(a) <==> d in Resting(b);
      assert d in Resting(a) ==> Resting(a)[d] == Resting(b)[d];
    }
  }

  /** One stream replayed on two maps of equal depth leaves equal depth. */
  lemma {:induction false} ReplayKeepsDepth(a: Levels, b: Levels, deliveries: seq<Delivery>)
    requires SameDepth(a, b)
    ensures SameDepth(Replay(a, deliveries), Replay(b, deliveries))
  {
    EconomyIsDepth(a, b);
    ReplayKeepsEconomy(a, b, deliveries);
    EconomyIsDepth(Replay(a, deliveries), Replay(b, deliveries));
  }

  lemma {:induction false} ReplayKeepsEconomy(a: Levels, b: Levels, deliveries: seq<Delivery>)
    requires EconomicallyEqual(a, b)
    ensures EconomicallyEqual(Replay(a, deliveries), Replay(b, deliveries))
    decreases |deliveries|
  {
    if deliveries != [] {
      var prefix, last := deliveries[..|deliveries| - 1], deliveries[|deliveries| - 1];
      ReplayKeepsEconomy(a, b, prefix);
      if last.Mutated? && (last.mutation.before.Some? || last.mutation.after.Some?) {
        var q := if last.mutation.after.Some? then Some(last.mutation.after.value.quantity) else None;
        PutKeepsEconomy(Replay(a, prefix), Replay(b, prefix), At(last.mutation), q);
      }
    }
  }

  lemma {:induction false} ReplayConcat(m: Levels, first: seq<Delivery>, second: seq<Delivery>)
    ensures Replay(m, first + second) == Replay(Replay(m, first), second)
    decreases |second|
  {
    if second == [] {
      assert first + second == first;
    } else {
      var prefix := second[..|second| - 1];
      var all := first + second;
      assert all[..|all| - 1] == first + prefix;
      ReplayConcat(m, first, prefix);
    }
  }
}
