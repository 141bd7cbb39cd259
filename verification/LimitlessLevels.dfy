/** The venue's level decoder and the snapshot candidate built from it
    (src/limitless.rs). */
module LimitlessLevels {
  import opened Prelude
  import opened Decimals
  import opened DecimalText
  import opened Complement
  import opened Coordinates
  import opened Observation
  import opened Book
  import opened BookSteps

  const VENUE_GRAMMAR := Grammar(18, 30, true, false, 128, 5, 99_999)

  /** It is the grammar the source's literals build. */
  lemma {:induction false} VenueGrammarIsBuilt()
    ensures NewGrammar(18, 30, true, false) == Success(VENUE_GRAMMAR)
  {
  }

  /** One array entry: the lexemes of its two fields, where they are JSON numbers. */
  datatype Entry = Entry(price: Option<string>, size: Option<string>)

  datatype DecodeError =
    | InvalidField(field: string)
    | DecimalRefused(field: string, source: DecimalError)
    | PriceOutOfDomain
    | LevelOrdering(side: Side)

  /** The decimal newtypes' `parse`: never negative. */
  function ParseAmount(lexeme: string): (r: Result<Price, DecimalError>)
  {
    match Parse(lexeme, VENUE_GRAMMAR)
    case Failure(error) => Failure(error)
    case Success(d) => ParsedShape(lexeme, VENUE_GRAMMAR); Success(d)
  }

  /** Best first: bids descend, asks ascend, both strictly. */
  predicate Ordered(side: Side, last: Price, price: Price) {
    Compare(price, last) == (if side == Bid then Less else Greater)
  }

  /** One entry's level, without regard to its neighbours. */
  function DecodeEntry(entry: Entry, side: Side): Result<Level, DecodeError> {
    if entry.price.None? then Failure(InvalidField("price"))
    else
      match ParseAmount(entry.price.value)
      case Failure(error) => Failure(DecimalRefused("price", error))
      case Success(price) =>
        if Compare(price, UNIT) == Greater then Failure(PriceOutOfDomain)
        else if entry.size.None? then Failure(InvalidField("size"))
        else
          match ParseAmount(entry.size.value)
          case Failure(error) => Failure(DecimalRefused("size", error))
          case Success(quantity) => Success(Level(Coordinate(side, price), quantity))
  }

  /** What each entry reports by itself. */
  function Outcomes(entries: seq<Entry>, side: Side): seq<Result<Level, DecodeError>> {
    seq(|entries|, i requires 0 <= i < |entries| => DecodeEntry(entries[i], side))
  }

  /** The levels so far and one more, which must come after the last of them. */
  function Append(levels: seq<Level>, outcome: Result<Level, DecodeError>, side: Side)
    : Result<seq<Level>, DecodeError>
  {
    var level :- outcome;
    if levels != [] && !Ordered(side, levels[|levels| - 1].at.price, level.at.price)
    then Failure(LevelOrdering(side))
    else Success(levels + [level])
  }

  /** All of the levels, or the first defect in array order. */
  function Collect(outcomes: seq<Result<Level, DecodeError>>, side: Side): Result<seq<Level>, DecodeError> {
    if outcomes == [] then Success([])
    else
      var levels :- Collect(outcomes[..|outcomes| - 1], side);
      Append(levels, outcomes[|outcomes| - 1], side)
  }

  function Decode(entries: seq<Entry>, side: Side): Result<seq<Level>, DecodeError> {
    Collect(Outcomes(entries, side), side)
  }

  lemma {:induction false} CollectFailsEarly(outcomes: seq<Result<Level, DecodeError>>, side: Side, i: nat)
    requires i <= |outcomes|
    requires Collect(outcomes[..i], side).Failure?
    ensures Collect(outcomes, side) == Collect(outcomes[..i], side)
    decreases |outcomes|
  {
    if i < |outcomes| {
      var prefix := outcomes[..|outcomes| - 1];
      assert prefix[..i] == outcomes[..i];
      CollectFailsEarly(prefix, side, i);
    } else {
      assert outcomes[..i] == outcomes;
    }
  }

  lemma {:induction false} CollectStep(outcomes: seq<Result<Level, DecodeError>>, side: Side, i: nat)
    requires i < |outcomes| && Collect(outcomes[..i], side).Success?
    ensures Collect(outcomes[..i + 1], side) == Append(Collect(outcomes[..i], side).value, outcomes[i], side)
  {
    assert outcomes[..i + 1][..i] == outcomes[..i];
  }

  /** `decode_levels`. */
  method DecodeLevels(listed: Option<seq<Entry>>, field: string, side: Side)
    returns (r: Result<seq<Level>, DecodeError>)
    ensures r == if listed.None? then Failure(InvalidField(field)) else Decode(listed.value, side)
  {
    if listed.None? {
      return Failure(InvalidField(field));
    }
    var entries := listed.value;
    ghost var outcomes := Outcomes(entries, side);
    var levels: seq<Level> := [];
    for i := 0 to |entries|
      invariant Collect(outcomes[..i], side) == Success(levels)
    {
      CollectStep(outcomes, side, i);
      var next := Append(levels, DecodeEntry(entries[i], side), side);
      if next.Failure? {
        CollectFailsEarly(outcomes, side, i + 1);
        return next;
      }
      levels := next.value;
    }
    assert outcomes[..|entries|] == outcomes;
    return Success(levels);
  }

  // ---------------------------------------------------------------------------------
  // The decoder against the lexemes and their exact values
  // ---------------------------------------------------------------------------------

  /** The two lexemes parse under the venue grammar, the price to at most 1, and the level
      is the one they report. */
  ghost predicate Reads(entry: Entry, side: Side, level: Level) {
    && entry.price.Some? && Parse(entry.price.value, VENUE_GRAMMAR) == Success(level.at.price)
    && entry.size.Some? && Parse(entry.size.value, VENUE_GRAMMAR) == Success(level.quantity)
    && level.at.side == side
    && Value(level.at.price) <= 1.0
  }

  ghost predicate AllRead(entries: seq<Entry>, side: Side, levels: seq<Level>) {
    |levels| == |entries| && forall i :: 0 <= i < |entries| ==> Reads(entries[i], side, levels[i])
  }

  /** Bids strictly descend and asks strictly ascend, by value. */
  ghost predicate BestFirst(levels: seq<Level>, side: Side) {
    forall i, j :: 0 <= i < j < |levels| ==>
      if side == Bid then Value(levels[i].at.price) > Value(levels[j].at.price)
      else Value(levels[i].at.price) < Value(levels[j].at.price)
  }

  ghost predicate StrictlyOrdered(levels: seq<Level>, side: Side) {
    forall i, j :: 0 <= i < j < |levels| ==> Ordered(side, levels[i].at.price, levels[j].at.price)
  }

  ghost predicate AllSucceed(outcomes: seq<Result<Level, DecodeError>>, levels: seq<Level>) {
    |levels| == |outcomes| && forall i :: 0 <= i < |outcomes| ==> outcomes[i] == Success(levels[i])
  }

  lemma {:induction false} OrderedByValue(levels: seq<Level>, side: Side)
    ensures StrictlyOrdered(levels, side) <==> BestFirst(levels, side)
  {
    forall i, j | 0 <= i < j < |levels|
      ensures Ordered(side, levels[i].at.price, levels[j].at.price) <==>
        if side == Bid then Value(levels[i].at.price) > Value(levels[j].at.price)
        else Value(levels[i].at.price) < Value(levels[j].at.price)
    {
      CompareExact(levels[j].at.price, levels[i].at.price);
    }
  }

  lemma {:induction false} OrderedIsTransitive(side: Side, a: Price, b: Price, c: Price)
    requires Ordered(side, a, b) && Ordered(side, b, c)
    ensures Ordered(side, a, c)
  {
    CompareExact(b, a);
    CompareExact(c, b);
    CompareExact(c, a);
  }

  lemma {:induction false} OrderedExtends(levels: seq<Level>, level: Level, side: Side)
    requires StrictlyOrdered(levels, side)
    ensures StrictlyOrdered(levels + [level], side) <==>
      levels == [] || Ordered(side, levels[|levels| - 1].at.price, level.at.price)
  {
    var n := |levels|;
    if n > 0 {
      var all := levels + [level];
      assert all[n - 1] == levels[n - 1] && all[n] == level;
      if Ordered(side, levels[n - 1].at.price, level.at.price) {
        forall i | 0 <= i < n
          ensures Ordered(side, levels[i].at.price, level.at.price)
        {
          if i < n - 1 {
            OrderedIsTransitive(side, levels[i].at.price, levels[n - 1].at.price, level.at.price);
          }
        }
      }
    }
  }

  lemma {:induction false} CollectedSucceed(outcomes: seq<Result<Level, DecodeError>>, side: Side)
    requires Collect(outcomes, side).Success?
    ensures AllSucceed(outcomes, Collect(outcomes, side).value)
    ensures StrictlyOrdered(Collect(outcomes, side).value, side)
    decreases |outcomes|
  {
    if outcomes != [] {
      var n := |outcomes| - 1;
      CollectedSucceed(outcomes[..n], side);
      OrderedExtends(Collect(outcomes[..n], side).value, outcomes[n].value, side);
    }
  }

  lemma {:induction false} SucceedingCollect(outcomes: seq<Result<Level, DecodeError>>, side: Side, levels: seq<Level>)
    requires AllSucceed(outcomes, levels) && StrictlyOrdered(levels, side)
    ensures Collect(outcomes, side) == Success(levels)
    decreases |outcomes|
  {
    if outcomes != [] {
      var n := |outcomes| - 1;
      SucceedingCollect(outcomes[..n], side, levels[..n]);
      assert levels == levels[..n] + [levels[n]];
    }
  }

  lemma {:induction false} EntryReads(entry: Entry, side: Side, level: Level)
    ensures DecodeEntry(entry, side) == Success(level) <==> Reads(entry, side, level)
  {
    if entry.price.Some? && ParseAmount(entry.price.value).Success? {
      CompareExact(ParseAmount(entry.price.value).value, UNIT);
      WholeValue(1);
    }
  }

  lemma {:induction false} OutcomesRead(entries: seq<Entry>, side: Side, levels: seq<Level>)
    requires |levels| == |entries|
    ensures AllSucceed(Outcomes(entries, side), levels) <==> AllRead(entries, side, levels)
  {
    forall i | 0 <= i < |entries|
      ensures Outcomes(entries, side)[i] == Success(levels[i]) <==> Reads(entries[i], side, levels[i])
    {
      EntryReads(entries[i], side, levels[i]);
    }
  }

  /** The decoder accepts exactly the arrays whose lexemes parse, whose prices are at most 1
      and whose levels run best first, and yields exactly the levels they report. */
  lemma {:induction false} DecodesExactly(entries: seq<Entry>, side: Side, levels: seq<Level>)
    ensures Decode(entries, side) == Success(levels) <==> AllRead(entries, side, levels) && BestFirst(levels, side)
  {
    OrderedByValue(levels, side);
    if Decode(entries, side) == Success(levels) {
      CollectedSucceed(Outcomes(entries, side), side);
      OutcomesRead(entries, side, levels);
    }
    if AllRead(entries, side, levels) && StrictlyOrdered(levels, side) {
      OutcomesRead(entries, side, levels);
      SucceedingCollect(Outcomes(entries, side), side, levels);
    }
  }

  /** Why an entry, after these levels of its side, is refused: the first of its own
      defects, or its place. */
  ghost predicate Defect(levels: seq<Level>, entry: Entry, side: Side, e: DecodeError) {
    if entry.price.None? then e == InvalidField("price")
    else if Parse(entry.price.value, VENUE_GRAMMAR).Failure? then
      e == DecimalRefused("price", Parse(entry.price.value, VENUE_GRAMMAR).error)
    else if Value(Parse(entry.price.value, VENUE_GRAMMAR).value) > 1.0 then e == PriceOutOfDomain
    else if entry.size.None? then e == InvalidField("size")
    else if Parse(entry.size.value, VENUE_GRAMMAR).Failure? then
      e == DecimalRefused("size", Parse(entry.size.value, VENUE_GRAMMAR).error)
    else
      && e == LevelOrdering(side)
      && levels != []
      && (var last, price := levels[|levels| - 1].at.price, Parse(entry.price.value, VENUE_GRAMMAR).value;
          if side == Bid then Value(price) >= Value(last) else Value(price) <= Value(last))
  }

  lemma {:induction false} EntryDefect(levels: seq<Level>, entry: Entry, side: Side)
    requires DecodeEntry(entry, side).Failure?
    ensures Defect(levels, entry, side, DecodeEntry(entry, side).error)
  {
    if entry.price.Some? && ParseAmount(entry.price.value).Success? {
      CompareExact(ParseAmount(entry.price.value).value, UNIT);
      WholeValue(1);
    }
  }

  lemma {:induction false} PlaceDefect(levels: seq<Level>, entry: Entry, side: Side)
    requires DecodeEntry(entry, side).Success? && levels != []
    requires !Ordered(side, levels[|levels| - 1].at.price, DecodeEntry(entry, side).value.at.price)
    ensures Defect(levels, entry, side, LevelOrdering(side))
  {
    var level := DecodeEntry(entry, side).value;
    EntryReads(entry, side, level);
    CompareExact(level.at.price, levels[|levels| - 1].at.price);
  }

  lemma {:induction false} AppendDefect(levels: seq<Level>, entry: Entry, side: Side)
    requires Append(levels, DecodeEntry(entry, side), side).Failure?
    ensures Defect(levels, entry, side, Append(levels, DecodeEntry(entry, side), side).error)
  {
    if DecodeEntry(entry, side).Failure? {
      EntryDefect(levels, entry, side);
    } else {
      PlaceDefect(levels, entry, side);
    }
  }

  lemma {:induction false} OutcomesOfPrefix(entries: seq<Entry>, side: Side, i: nat)
    requires i <= |entries|
    ensures Outcomes(entries[..i], side) == Outcomes(entries, side)[..i]
  {
  }

  lemma {:induction false} DecodeLast(entries: seq<Entry>, side: Side)
    requires entries != []
    ensures var n := |entries| - 1;
            Decode(entries, side)
            == match Decode(entries[..n], side)
               case Failure(error) => Failure(error)
               case Success(levels) => Append(levels, DecodeEntry(entries[n], side), side)
  {
    OutcomesOfPrefix(entries, side, |entries| - 1);
  }

  /** A refused array is refused for its first defective entry, after decoding everything
      before it. */
  lemma {:induction false} RefusedForFirstEntry(entries: seq<Entry>, side: Side) returns (i: nat)
    requires Decode(entries, side).Failure?
    ensures i < |entries| && Decode(entries[..i], side).Success?
    ensures Defect(Decode(entries[..i], side).value, entries[i], side, Decode(entries, side).error)
    decreases |entries|
  {
    var n := |entries| - 1;
    DecodeLast(entries, side);
    if Decode(entries[..n], side).Failure? {
      i := RefusedForFirstEntry(entries[..n], side);
      assert entries[..n][..i] == entries[..i];
    } else {
      i := n;
      AppendDefect(Decode(entries[..n], side).value, entries[n], side);
    }
  }

  // ---------------------------------------------------------------------------------
  // The decoder and the book
  // ---------------------------------------------------------------------------------

  lemma {:induction false} ReadInDomain(entry: Entry, side: Side, level: Level)
    requires Reads(entry, side, level)
    ensures Complementable(level.at.price)
  {
    ParsedShape(entry.price.value, VENUE_GRAMMAR);
    AtMostUnit(level.at.price);
  }

  ghost predicate OnSide(levels: seq<Level>, side: Side) {
    forall i :: 0 <= i < |levels| ==> levels[i].at.side == side
  }

  lemma {:induction false} ReadsAreAdmissible(entries: seq<Entry>, side: Side, levels: seq<Level>)
    requires AllRead(entries, side, levels)
    ensures OnSide(levels, side) && AllComplementable(levels)
  {
    forall i | 0 <= i < |levels|
      ensures levels[i].at.side == side && Complementable(levels[i].at.price)
    {
      ReadInDomain(entries[i], side, levels[i]);
    }
  }

  lemma {:induction false} OrderedAreDistinct(levels: seq<Level>, side: Side)
    requires BestFirst(levels, side)
    ensures DistinctLevels(levels)
  {
    forall i, j | 0 <= i < j < |levels|
      ensures levels[i].at != levels[j].at
    {
      assert Value(levels[i].at.price) != Value(levels[j].at.price);
    }
  }

  lemma {:induction false} SidesAreDistinct(bids: seq<Level>, asks: seq<Level>)
    requires OnSide(bids, Bid) && OnSide(asks, Ask)
    requires DistinctLevels(bids) && DistinctLevels(asks)
    ensures DistinctLevels(bids + asks)
  {
    var all := bids + asks;
    forall i, j | 0 <= i < j < |all|
      ensures all[i].at != all[j].at
    {
      assert i < |bids| ==> all[i] == bids[i];
      assert |bids| <= i ==> all[i] == asks[i - |bids|];
      assert j < |bids| ==> all[j] == bids[j];
      assert |bids| <= j ==> all[j] == asks[j - |bids|];
    }
  }

  lemma {:induction false} SideIsAdmissible(entries: seq<Entry>, side: Side)
    requires Decode(entries, side).Success?
    ensures var levels := Decode(entries, side).value;
            OnSide(levels, side) && DistinctLevels(levels) && AllComplementable(levels)
  {
    var levels := Decode(entries, side).value;
    DecodesExactly(entries, side, levels);
    ReadsAreAdmissible(entries, side, levels);
    OrderedAreDistinct(levels, side);
  }

  /** `snapshot_candidate`. */
  method BuildCandidate(bids: seq<Level>, asks: seq<Level>, provenance: Provenance, capacity: nat)
    returns (r: Result<Candidate, ObservationError>)
    requires NewProvenance(provenance) == Success(provenance)
    ensures r.Success? <==>
      && provenance.representation == VenueNative && provenance.origin == SourceReported
      && |bids| + |asks| <= capacity
    ensures r.Success? ==> IsCandidate(r.value) && r.value == Candidate(provenance, Snapshot(bids + asks))
    ensures r.Failure? ==>
      r.error == if provenance.representation == VenueNative && provenance.origin == SourceReported
                 then LevelCapacityExceeded else InvalidOrigin
  {
    if !(provenance.representation == VenueNative && provenance.origin == SourceReported) {
      return Failure(InvalidOrigin);
    }
    var levels := BoundLevels(bids + asks, capacity);
    if levels.Failure? {
      return Failure(levels.error);
    }
    return SnapshotCandidate(provenance, levels.value);
  }

  /** Whatever the decoder accepts for the two sides, the book admits: a snapshot built
      from it is never refused for a repeated coordinate or for a price without a
      complement. */
  lemma {:induction false} DecoderMeetsBook(bids: seq<Entry>, asks: seq<Entry>, c: Candidate, b: BookState)
    requires Decode(bids, Bid).Success? && Decode(asks, Ask).Success?
    requires IsCandidate(c) && c.operation == Snapshot(Decode(bids, Bid).value + Decode(asks, Ask).value)
    ensures Admit(c.operation.levels).Success?
    ensures SnapshotOutcome(b, c).Failure? ==>
      SnapshotOutcome(b, c).error != DuplicateLevelCoordinate && !SnapshotOutcome(b, c).error.NonComplementablePrice?
  {
    var x, y := Decode(bids, Bid).value, Decode(asks, Ask).value;
    SideIsAdmissible(bids, Bid);
    SideIsAdmissible(asks, Ask);
    SidesAreDistinct(x, y);
    AdmitMeaning(x + y);
    CommitErrors(b, c);
  }

  lemma {:induction false} EmitErrors(changes: seq<Change>, s: Stamp)
    ensures Emit(changes, s).Failure? ==>
      Emit(changes, s).error != DuplicateLevelCoordinate && !Emit(changes, s).error.NonComplementablePrice?
    decreases |changes|
  {
    if changes != [] {
      EmitErrors(changes[..|changes| - 1], s);
    }
  }

  lemma {:induction false} CommitErrors(b: BookState, c: Candidate)
    requires c.operation.Snapshot? && Admit(c.operation.levels).Success?
    ensures SnapshotOutcome(b, c).Failure? ==>
      SnapshotOutcome(b, c).error != DuplicateLevelCoordinate && !SnapshotOutcome(b, c).error.NonComplementablePrice?
  {
    var next := Admit(c.operation.levels).value;
    var rebased := Rebased(b.continuity, Diverges(b, next));
    if rebased.Success? && Derives(b) {
      EmitErrors(DiffChanges(b.levels, next),
                 Stamp(c.provenance, b.revision + 1, rebased.value.epoch, rebased.value.nextPosition, DerivedDiff));
    }
  }
}
