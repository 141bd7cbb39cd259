/** The Python reader's accesses to a validated segment (examples/reader.py).  The mapping
    may change between any two reads: memory is a function of time, and each read happens
    at its own instant. */
module SegmentReader {
  import opened Prelude
  import opened Bits
  import opened StoredDecimal
  import opened SegmentGeometry

  const NO_STATE_SLOT: nat := 0xFFFF_FFFF
  const MAX_READ_ATTEMPTS: nat := 64
  const MARKET_RESOLVED: nat := 3

  /** The mapping's contents at every instant. */
  type Memory = nat -> seq<byte>

  ghost predicate Sized(memory: Memory, size: nat) {
    forall t :: |memory(t)| == size
  }

  ghost predicate Reachable(memory: Memory, span: Span) {
    forall t :: |memory(t)| >= span.End()
  }

  /** One record's own bytes. */
  ghost function Cell(view: seq<byte>, span: Span): seq<byte>
    requires span.End() <= |view|
  {
    view[span.start..span.End()]
  }

  lemma {:induction false} OwnHalf(view: seq<byte>, span: Span, offset: nat)
    requires span.End() <= |view| && offset + 4 <= span.length
    ensures U32(view, span.start + offset) == U32(Cell(view, span), offset)
  {
  }

  /** A 32-bit field of a record; it depends on that record's bytes only. */
  function Field32(view: seq<byte>, span: Span, offset: nat): (word: nat)
    requires span.End() <= |view| && offset + 4 <= span.length
    ensures word == U32(Cell(view, span), offset)
  {
    OwnHalf(view, span, offset);
    U32(view, span.start + offset)
  }

  function Field64(view: seq<byte>, span: Span, offset: nat): (word: u64)
    requires span.End() <= |view| && offset + 8 <= span.length
    ensures word == U64(Cell(view, span), offset)
  {
    OwnHalf(view, span, offset);
    OwnHalf(view, span, offset + 4);
    U64(view, span.start + offset)
  }

  lemma {:induction false} SliceOfSlice(s: seq<byte>, a: nat, b: nat, i: nat, j: nat)
    requires a <= b <= |s| && i <= j <= b - a
    ensures s[a..b][i..j] == s[a + i..a + j]
  {
    var whole := s[a..b];
    var x, y := whole[i..j], s[a + i..a + j];
    assert |x| == |y|;
    forall k | 0 <= k < |x|
      ensures x[k] == y[k]
    {
      assert x[k] == whole[i + k] == s[a + (i + k)];
      assert y[k] == s[(a + i) + k];
    }
  }

  function FieldBytes(view: seq<byte>, span: Span, offset: nat, length: nat): (bytes: seq<byte>)
    requires span.End() <= |view| && offset + length <= span.length
    ensures bytes == Cell(view, span)[offset..offset + length]
  {
    SliceOfSlice(view, span.start, span.End(), offset, offset + length);
    view[span.start + offset..span.start + offset + length]
  }

  lemma {:induction false} RecordIsReachable(memory: Memory, g: Geometry, r: Record)
    requires Sized(memory, SegmentBytes(g)) && g.eventCapacity > 0 && InRange(g, r)
    ensures Reachable(memory, SpanOf(g, r))
  {
    RecordFits(g, r);
  }

  // ---------------------------------------------------------------------------------
  // Sequence-bracketed copies
  // ---------------------------------------------------------------------------------

  /** Two readings of the record's sequence word agree on one published, even value. */
  ghost predicate Brackets(memory: Memory, span: Span, a: nat, b: nat)
    requires Reachable(memory, span) && span.length >= 8
  {
    && a < b
    && U64(Cell(memory(a), span), 0) == U64(Cell(memory(b), span), 0)
    && U64(Cell(memory(a), span), 0) != 0
    && U64(Cell(memory(a), span), 0) % 2 == 0
  }

  /** The record's bytes do not change from `a` to `b`. */
  ghost predicate Steady(memory: Memory, span: Span, a: nat, b: nat)
    requires Reachable(memory, span)
  {
    forall t :: a <= t <= b ==> Cell(memory(t), span) == Cell(memory(a), span)
  }

  /** An attempt that opened at `t` and closed at `b` and found the writer at work: an odd
      word, or one that moved. */
  ghost predicate Missed(memory: Memory, span: Span, t: nat, b: nat)
    requires Reachable(memory, span) && span.length >= 8
  {
    && t <= b
    && U64(Cell(memory(t), span), 0) != 0
    && (|| U64(Cell(memory(t), span), 0) % 2 == 1
        || U64(Cell(memory(b), span), 0) != U64(Cell(memory(t), span), 0))
  }

  /** Attempts made one after the other from `start` on, all of them missed. */
  ghost predicate AllMissed(memory: Memory, span: Span, start: nat, attempts: seq<(nat, nat)>)
    requires Reachable(memory, span) && span.length >= 8
  {
    && (forall i :: 0 <= i < |attempts| ==>
          start <= attempts[i].0 && Missed(memory, span, attempts[i].0, attempts[i].1))
    && (forall i, j :: 0 <= i < j < |attempts| ==> attempts[i].1 < attempts[j].0)
  }

  lemma {:induction false} MissedOneMore(memory: Memory, span: Span, start: nat, attempts: seq<(nat, nat)>,
                                        a: nat, b: nat)
    requires Reachable(memory, span) && span.length >= 8
    requires AllMissed(memory, span, start, attempts) && Missed(memory, span, a, b) && start <= a
    requires forall i :: 0 <= i < |attempts| ==> attempts[i].1 < a
    ensures AllMissed(memory, span, start, attempts + [(a, b)])
  {
  }

  /** From `start` on the record is published and nobody writes it. */
  ghost predicate Quiet(memory: Memory, span: Span, start: nat)
    requires Reachable(memory, span) && span.length >= 8
  {
    && (forall t :: start <= t ==> Cell(memory(t), span) == Cell(memory(start), span))
    && U64(Cell(memory(start), span), 0) != 0
    && U64(Cell(memory(start), span), 0) % 2 == 0
  }

  lemma {:induction false} QuietIsNeverMissed(memory: Memory, span: Span, start: nat, attempts: seq<(nat, nat)>)
    requires Reachable(memory, span) && span.length >= 8 && Quiet(memory, span, start)
    ensures AllMissed(memory, span, start, attempts) ==> attempts == []
  {
    if attempts != [] {
      var (t, b) := attempts[0];
      assert start <= t <= b ==> !Missed(memory, span, t, b);
    }
  }

  /** A stored decimal's three words. */
  datatype Words = Words(low: u64, high: u64, scale: nat)

  ghost function WordsOf(cell: seq<byte>, offset: nat): Words
    requires offset + 20 <= |cell|
  {
    Words(U64(cell, offset), U64(cell, offset + 8), U32(cell, offset + 16))
  }

  /** `decimal`: three reads. */
  method ReadWords(memory: Memory, span: Span, offset: nat, ghost a: nat, t: nat) returns (w: Words, end: nat)
    requires Reachable(memory, span) && offset + 20 <= span.length && a <= t
    ensures end == t + 3
    ensures Steady(memory, span, a, end) ==> w == WordsOf(Cell(memory(a), span), offset)
  {
    w := Words(Field64(memory(t), span, offset), Field64(memory(t + 1), span, offset + 8),
               Field32(memory(t + 2), span, offset + 16));
    end := t + 3;
  }

  // ---------------------------------------------------------------------------------
  // Events
  // ---------------------------------------------------------------------------------

  datatype Text = Text(length: nat, raw: seq<byte>)

  datatype EventBody =
    | Resolution(winningIndex: nat, path: nat, outcome: Text, marketType: Text, date: Text)
    | Mutation(side: nat, oldPresent: nat, newPresent: nat, price: Words, oldQuantity: Words, newQuantity: Words)

  datatype EventCopy = EventCopy(
    epoch: nat, position: nat, revision: nat, kind: nat, origin: nat, derivation: nat, owner: nat,
    arrival: nat, body: EventBody)

  datatype EventRead = Absent | Contended | Copied(event: EventCopy)

  ghost function TextOf(cell: seq<byte>, length: nat, offset: nat, capacity: nat): Text
    requires length + 4 <= |cell| && offset + capacity <= |cell|
  {
    Text(U32(cell, length), cell[offset..offset + capacity])
  }

  /** What one event record says, by its delivery kind. */
  ghost function BodyOf(cell: seq<byte>, kind: nat): EventBody
    requires |cell| == EVENT_SLOT_BYTES
  {
    if kind == MARKET_RESOLVED then
      Resolution(U32(cell, 56), U32(cell, 60), TextOf(cell, 64, 104, 64), TextOf(cell, 68, 168, 32),
                 TextOf(cell, 96, 200, 32))
    else
      Mutation(U32(cell, 56), U32(cell, 60), U32(cell, 64), WordsOf(cell, 96), WordsOf(cell, 120), WordsOf(cell, 144))
  }

  ghost function EventOf(cell: seq<byte>): EventCopy
    requires |cell| == EVENT_SLOT_BYTES
  {
    EventCopy(U64(cell, 8), U64(cell, 16), U64(cell, 24), U32(cell, 40), U32(cell, 44), U32(cell, 48), U32(cell, 72),
              U64(cell, 232), BodyOf(cell, U32(cell, 40)))
  }

  method ReadText(memory: Memory, span: Span, length: nat, offset: nat, capacity: nat, ghost a: nat, t: nat)
    returns (text: Text, end: nat)
    requires Reachable(memory, span) && length + 4 <= span.length && offset + capacity <= span.length && a <= t
    ensures end == t + 2
    ensures Steady(memory, span, a, end) ==> text == TextOf(Cell(memory(a), span), length, offset, capacity)
  {
    text := Text(Field32(memory(t), span, length), FieldBytes(memory(t + 1), span, offset, capacity));
    end := t + 2;
  }

  method ReadResolution(memory: Memory, span: Span, ghost a: nat, t: nat) returns (body: EventBody, end: nat)
    requires Reachable(memory, span) && span.length == EVENT_SLOT_BYTES && a <= t
    ensures end >= t
    ensures Steady(memory, span, a, end) ==> body == BodyOf(Cell(memory(a), span), MARKET_RESOLVED)
  {
    var winner := Field32(memory(t), span, 56);
    var path := Field32(memory(t + 1), span, 60);
    var outcome, marketType, date;
    outcome, end := ReadText(memory, span, 64, 104, 64, a, t + 2);
    marketType, end := ReadText(memory, span, 68, 168, 32, a, end);
    date, end := ReadText(memory, span, 96, 200, 32, a, end);
    body := Resolution(winner, path, outcome, marketType, date);
  }

  method ReadMutation(memory: Memory, span: Span, ghost a: nat, t: nat) returns (body: EventBody, end: nat)
    requires Reachable(memory, span) && span.length == EVENT_SLOT_BYTES && a <= t
    ensures end >= t
    ensures Steady(memory, span, a, end) ==>
      forall kind :: kind != MARKET_RESOLVED ==> body == BodyOf(Cell(memory(a), span), kind)
  {
    var side := Field32(memory(t), span, 56);
    var oldPresent := Field32(memory(t + 1), span, 60);
    var newPresent := Field32(memory(t + 2), span, 64);
    var price, oldQuantity, newQuantity;
    price, end := ReadWords(memory, span, 96, a, t + 3);
    oldQuantity, end := ReadWords(memory, span, 120, a, end);
    newQuantity, end := ReadWords(memory, span, 144, a, end);
    body := Mutation(side, oldPresent, newPresent, price, oldQuantity, newQuantity);
  }

  /** One pass over an event record, between the two readings of its sequence word. */
  method CopyEvent(memory: Memory, span: Span, ghost a: nat, t: nat) returns (event: EventCopy, end: nat)
    requires Reachable(memory, span) && span.length == EVENT_SLOT_BYTES && a <= t
    ensures end >= t
    ensures Steady(memory, span, a, end) ==> event == EventOf(Cell(memory(a), span))
  {
    var kind := Field32(memory(t), span, 40);
    var epoch := Field64(memory(t + 1), span, 8);
    var position := Field64(memory(t + 2), span, 16);
    var revision := Field64(memory(t + 3), span, 24);
    var origin := Field32(memory(t + 4), span, 44);
    var derivation := Field32(memory(t + 5), span, 48);
    var owner := Field32(memory(t + 6), span, 72);
    var arrival := Field64(memory(t + 7), span, 232);
    var body;
    if kind == MARKET_RESOLVED {
      body, end := ReadResolution(memory, span, a, t + 8);
    } else {
      body, end := ReadMutation(memory, span, a, t + 8);
    }
    event := EventCopy(epoch, position, revision, kind, origin, derivation, owner, arrival, body);
  }

  /** How an answer about event record `span` came about: `a` is when the deciding attempt
      opened and `end` when it closed. */
  ghost predicate EventJustified(memory: Memory, span: Span, start: nat, r: EventRead, end: nat,
                                 a: nat, attempts: seq<(nat, nat)>)
    requires Reachable(memory, span) && span.length == EVENT_SLOT_BYTES
  {
    match r
    case Absent => start <= a < end && U64(Cell(memory(a), span), 0) == 0
    case Contended => |attempts| == 64 && AllMissed(memory, span, start, attempts)
    case Copied(event) =>
      && start <= a && Brackets(memory, span, a, end)
      && (Steady(memory, span, a, end) ==> event == EventOf(Cell(memory(a), span)))
  }

  /** The retry loop of `read_event`, on one event record. */
  method ReadEventRecord(memory: Memory, start: nat, span: Span) returns (r: EventRead, end: nat)
    requires Reachable(memory, span) && span.length == EVENT_SLOT_BYTES
    ensures exists a, attempts :: EventJustified(memory, span, start, r, end, a, attempts)
  {
    end := start;
    ghost var attempts: seq<(nat, nat)> := [];
    for attempt := 0 to MAX_READ_ATTEMPTS
      invariant end >= start && |attempts| == attempt
      invariant AllMissed(memory, span, start, attempts)
      invariant forall i :: 0 <= i < |attempts| ==> attempts[i].1 < end
    {
      ghost var a := end;
      var opening := Field64(memory(end), span, 0);
      end := end + 1;
      if opening == 0 {
        assert EventJustified(memory, span, start, Absent, end, a, attempts);
        return Absent, end;
      }
      ghost var b := a;
      if opening % 2 == 0 {
        var event;
        event, end := CopyEvent(memory, span, a, end);
        if Field64(memory(end), span, 0) == opening {
          assert EventJustified(memory, span, start, Copied(event), end, a, attempts);
          return Copied(event), end;
        }
        b := end;
        end := end + 1;
      }
      MissedOneMore(memory, span, start, attempts, a, b);
      attempts := attempts + [(a, b)];
    }
    assert EventJustified(memory, span, start, Contended, end, start, attempts);
    return Contended, end;
  }

  /** `read_event`: every read falls in the one event record that `position` wraps to, and
      a copy is returned only between two equal, even, published sequence words; when the
      record held still between them, the copy is exactly that record. */
  method ReadEvent(memory: Memory, start: nat, g: Geometry, entry: nat, position: nat)
    returns (r: EventRead, end: nat)
    requires CapacityError(g).None? && Sized(memory, SegmentBytes(g)) && entry < g.directoryCapacity
    ensures InRange(g, Event(entry, position % g.eventCapacity))
    ensures Reachable(memory, SpanOf(g, Event(entry, position % g.eventCapacity)))
    ensures var span := SpanOf(g, Event(entry, position % g.eventCapacity));
            exists a, attempts :: EventJustified(memory, span, start, r, end, a, attempts)
  {
    MaskWraps(g.eventCapacity, position);
    RecordIsReachable(memory, g, Event(entry, position % g.eventCapacity));
    var ring := EventOffset(g) + entry * RingBytes(g);
    var base := ring + And(position, g.eventCapacity - 1) * EVENT_SLOT_BYTES;
    r, end := ReadEventRecord(memory, start, Span(base, EVENT_SLOT_BYTES));
  }

  /** A record published once and left alone is always read, and read as it is. */
  lemma {:induction false} QuietEventIsRead(memory: Memory, span: Span, start: nat, r: EventRead, end: nat,
                                            a: nat, attempts: seq<(nat, nat)>)
    requires Reachable(memory, span) && span.length == EVENT_SLOT_BYTES
    requires Quiet(memory, span, start)
    requires EventJustified(memory, span, start, r, end, a, attempts)
    ensures r == Copied(EventOf(Cell(memory(start), span)))
    ensures var cell, e := Cell(memory(start), span), r.event;
            && e.epoch == U64(cell, 8) && e.position == U64(cell, 16) && e.revision == U64(cell, 24)
            && e.kind == U32(cell, 40) && e.origin == U32(cell, 44) && e.derivation == U32(cell, 48)
            && e.owner == U32(cell, 72) && e.arrival == U64(cell, 232)
            && (e.body.Resolution? <==> U32(cell, 40) == 3)
            && (e.body.Resolution? ==>
                  && e.body.winningIndex == U32(cell, 56) && e.body.path == U32(cell, 60)
                  && e.body.outcome == Text(U32(cell, 64), cell[104..168])
                  && e.body.marketType == Text(U32(cell, 68), cell[168..200])
                  && e.body.date == Text(U32(cell, 96), cell[200..232]))
            && (e.body.Mutation? ==>
                  && e.body.side == U32(cell, 56)
                  && e.body.oldPresent == U32(cell, 60) && e.body.newPresent == U32(cell, 64)
                  && e.body.price == Words(U64(cell, 96), U64(cell, 104), U32(cell, 112))
                  && e.body.oldQuantity == Words(U64(cell, 120), U64(cell, 128), U32(cell, 136))
                  && e.body.newQuantity == Words(U64(cell, 144), U64(cell, 152), U32(cell, 160)))
  {
    QuietIsNeverMissed(memory, span, start, attempts);
  }

  // ---------------------------------------------------------------------------------
  // State slots
  // ---------------------------------------------------------------------------------

  datatype StoredLevel = StoredLevel(side: nat, price: Words, quantity: Words)

  datatype SlotCopy = SlotCopy(
    revision: nat, authority: nat, reason: nat, continuityKind: nat, continuityReason: nat,
    epoch: nat, position: nat, owner: nat, count: nat, arrival: nat, levels: seq<StoredLevel>)

  datatype SlotError = SlotOutOfRange | UnknownSide | InvalidDecimal

  datatype SlotRead =
    | NoState | OwnershipMismatch | MalformedRecord | WriterStalled | SlotContended | State(slot: SlotCopy)

  function Min(a: nat, b: nat): nat {
    if a < b then a else b
  }

  ghost function LevelOf(cell: seq<byte>, index: nat): StoredLevel
    requires SLOT_PREFIX_BYTES + (index + 1) * LEVEL_CELL_BYTES <= |cell|
  {
    var at := SLOT_PREFIX_BYTES + index * LEVEL_CELL_BYTES;
    StoredLevel(U32(cell, at + 48), WordsOf(cell, at), WordsOf(cell, at + 24))
  }

  ghost function LevelsOf(cell: seq<byte>, count: nat): seq<StoredLevel>
    requires SLOT_PREFIX_BYTES + count * LEVEL_CELL_BYTES <= |cell|
  {
    seq(count, i requires 0 <= i < count => LevelOf(cell, i))
  }

  /** What one slot record says; at most `capacity` levels of it. */
  ghost function SlotOf(cell: seq<byte>, capacity: nat): SlotCopy
    requires SLOT_PREFIX_BYTES + capacity * LEVEL_CELL_BYTES <= |cell|
  {
    SlotCopy(U64(cell, 8), U32(cell, 40), U32(cell, 44), U32(cell, 48), U32(cell, 52), U64(cell, 16), U64(cell, 24),
             U32(cell, 80), U32(cell, 76), U64(cell, 96), LevelsOf(cell, Min(U32(cell, 76), capacity)))
  }

  predicate ValidLevel(level: StoredLevel) {
    && (level.side == 1 || level.side == 2)
    && CheckDecimal(level.price.low, level.price.high, level.price.scale).Some?
    && CheckDecimal(level.quantity.low, level.quantity.high, level.quantity.scale).Some?
  }

  ghost predicate AllValid(levels: seq<StoredLevel>) {
    forall i :: 0 <= i < |levels| ==> ValidLevel(levels[i])
  }

  /** `validate_levels`. */
  method ValidateLevels(levels: seq<StoredLevel>) returns (r: Option<SlotError>)
    ensures r.None? <==> AllValid(levels)
    ensures r != Some(SlotOutOfRange)
  {
    for i := 0 to |levels|
      invariant forall k :: 0 <= k < i ==> ValidLevel(levels[k])
    {
      var level := levels[i];
      if level.side != 1 && level.side != 2 {
        return Some(UnknownSide);
      }
      if CheckDecimal(level.price.low, level.price.high, level.price.scale).None? {
        return Some(InvalidDecimal);
      }
      if CheckDecimal(level.quantity.low, level.quantity.high, level.quantity.scale).None? {
        return Some(InvalidDecimal);
      }
    }
    return None;
  }

  lemma {:induction false} LevelFits(index: nat, capacity: nat, length: nat)
    requires index < capacity && SLOT_PREFIX_BYTES + capacity * LEVEL_CELL_BYTES <= length
    ensures SLOT_PREFIX_BYTES + (index + 1) * LEVEL_CELL_BYTES <= length
  {
  }

  method ReadLevel(memory: Memory, span: Span, index: nat, ghost a: nat, t: nat) returns (level: StoredLevel, end: nat)
    requires Reachable(memory, span) && SLOT_PREFIX_BYTES + (index + 1) * LEVEL_CELL_BYTES <= span.length && a <= t
    ensures end >= t
    ensures Steady(memory, span, a, end) ==> level == LevelOf(Cell(memory(a), span), index)
  {
    var at := SLOT_PREFIX_BYTES + index * LEVEL_CELL_BYTES;
    var side := Field32(memory(t), span, at + 48);
    var price, quantity;
    price, end := ReadWords(memory, span, at, a, t + 1);
    quantity, end := ReadWords(memory, span, at + 24, a, end);
    level := StoredLevel(side, price, quantity);
  }

  method ReadLevels(memory: Memory, span: Span, count: nat, ghost a: nat, t: nat)
    returns (levels: seq<StoredLevel>, end: nat)
    requires Reachable(memory, span) && SLOT_PREFIX_BYTES + count * LEVEL_CELL_BYTES <= span.length && a <= t
    ensures end >= t && |levels| == count
    ensures Steady(memory, span, a, end) ==> levels == LevelsOf(Cell(memory(a), span), count)
  {
    levels, end := [], t;
    for i := 0 to count
      invariant end >= t && |levels| == i
      invariant Steady(memory, span, a, end) ==>
        forall k :: 0 <= k < i ==> levels[k] == LevelOf(Cell(memory(a), span), k)
    {
      LevelFits(i, count, span.length);
      ghost var earlier := end;
      var level;
      level, end := ReadLevel(memory, span, i, a, end);
      assert Steady(memory, span, a, end) ==> Steady(memory, span, a, earlier);
      levels := levels + [level];
    }
  }

  /** One pass over a slot record, between the two readings of its revision word. */
  method CopySlot(memory: Memory, span: Span, capacity: nat, ghost a: nat, t: nat) returns (slot: SlotCopy, end: nat)
    requires Reachable(memory, span) && SLOT_PREFIX_BYTES + capacity * LEVEL_CELL_BYTES <= span.length && a <= t
    ensures end >= t && |slot.levels| == Min(slot.count, capacity)
    ensures Steady(memory, span, a, end) ==> slot == SlotOf(Cell(memory(a), span), capacity)
  {
    var revision := Field64(memory(t), span, 8);
    var authority := Field32(memory(t + 1), span, 40);
    var reason := Field32(memory(t + 2), span, 44);
    var kind := Field32(memory(t + 3), span, 48);
    var breakReason := Field32(memory(t + 4), span, 52);
    var epoch := Field64(memory(t + 5), span, 16);
    var position := Field64(memory(t + 6), span, 24);
    var owner := Field32(memory(t + 7), span, 80);
    var count := Field32(memory(t + 8), span, 76);
    var arrival := Field64(memory(t + 9), span, 96);
    var levels;
    levels, end := ReadLevels(memory, span, Min(count, capacity), a, t + 10);
    slot := SlotCopy(revision, authority, reason, kind, breakReason, epoch, position, owner, count, arrival, levels);
  }

  /** What is answered for a bracketed copy. */
  ghost predicate Answers(r: Result<SlotRead, SlotError>, slot: SlotCopy, entry: nat, capacity: nat) {
    if slot.owner != entry then r == Success(OwnershipMismatch)
    else if slot.count > capacity then r == Success(MalformedRecord)
    else if AllValid(slot.levels) then r == Success(State(slot))
    else r.Failure?
  }

  method Answer(slot: SlotCopy, entry: nat, capacity: nat) returns (r: Result<SlotRead, SlotError>)
    ensures Answers(r, slot, entry, capacity)
    ensures r.Failure? ==> r.error != SlotOutOfRange
    ensures r.Success? ==> !r.value.NoState? && !r.value.WriterStalled? && !r.value.SlotContended?
  {
    if slot.owner != entry {
      return Success(OwnershipMismatch);
    }
    if slot.count > capacity {
      return Success(MalformedRecord);
    }
    var defect := ValidateLevels(slot.levels);
    if defect.Some? {
      return Failure(defect.value);
    }
    return Success(State(slot));
  }

  /** One odd revision word, seen by every attempt. */
  ghost predicate Stalled(memory: Memory, span: Span, word: nat, attempts: seq<(nat, nat)>)
    requires Reachable(memory, span) && span.length >= 8
  {
    word % 2 == 1 && forall i :: 0 <= i < |attempts| ==> U64(Cell(memory(attempts[i].0), span), 0) == word
  }

  /** How an answer about slot record `span` came about: `a` is when the deciding attempt
      opened and `end` when it closed. */
  ghost predicate Justified(memory: Memory, span: Span, start: nat, entry: nat, capacity: nat,
                            r: Result<SlotRead, SlotError>, end: nat, a: nat, attempts: seq<(nat, nat)>)
    requires Reachable(memory, span) && SLOT_PREFIX_BYTES + capacity * LEVEL_CELL_BYTES <= span.length
  {
    match r
    case Success(NoState) => start <= a < end && U64(Cell(memory(a), span), 0) == 0
    case Success(SlotContended) =>
      && |attempts| == 64 && AllMissed(memory, span, start, attempts)
      && forall word :: !Stalled(memory, span, word, attempts)
    case Success(WriterStalled) =>
      && |attempts| == 64 && AllMissed(memory, span, start, attempts)
      && Stalled(memory, span, U64(Cell(memory(a), span), 0), attempts)
    case _ =>
      && start <= a && Brackets(memory, span, a, end)
      && (Steady(memory, span, a, end) ==> Answers(r, SlotOf(Cell(memory(a), span), capacity), entry, capacity))
  }

  /** What the loop remembers: whether every attempt so far saw one odd word. */
  ghost predicate Remembers(memory: Memory, span: Span, attempts: seq<(nat, nat)>, stalledAt: Option<u64>, moved: bool)
    requires Reachable(memory, span) && span.length >= 8
  {
    if moved || stalledAt.None? then
      && (!moved ==> attempts == [])
      && (moved ==> forall word :: !Stalled(memory, span, word, attempts))
    else attempts != [] && Stalled(memory, span, stalledAt.value, attempts)
  }

  /** The retry loop of `read_slot`, on one slot record. */
  method ReadRecord(memory: Memory, start: nat, span: Span, entry: nat, capacity: nat)
    returns (r: Result<SlotRead, SlotError>, end: nat)
    requires Reachable(memory, span) && SLOT_PREFIX_BYTES + capacity * LEVEL_CELL_BYTES <= span.length
    ensures exists a, attempts :: Justified(memory, span, start, entry, capacity, r, end, a, attempts)
    ensures r.Failure? ==> r.error != SlotOutOfRange
  {
    end := start;
    ghost var attempts: seq<(nat, nat)> := [];
    var stalledAt: Option<u64>, moved := None, false;
    for attempt := 0 to MAX_READ_ATTEMPTS
      invariant end >= start && |attempts| == attempt
      invariant AllMissed(memory, span, start, attempts)
      invariant forall i :: 0 <= i < |attempts| ==> attempts[i].1 < end
      invariant Remembers(memory, span, attempts, stalledAt, moved)
    {
      ghost var a := end;
      var opening := Field64(memory(end), span, 0);
      end := end + 1;
      if opening == 0 {
        assert Justified(memory, span, start, entry, capacity, Success(NoState), end, a, attempts);
        return Success(NoState), end;
      }
      if opening % 2 == 1 {
        MissedOneMore(memory, span, start, attempts, a, a);
        OddAttempt(memory, span, attempts, a, stalledAt, moved);
        attempts := attempts + [(a, a)];
        if stalledAt.None? {
          stalledAt := Some(opening);
        } else if stalledAt.value != opening {
          moved := true;
        }
      } else {
        var slot;
        slot, end := CopySlot(memory, span, capacity, a, end);
        if Field64(memory(end), span, 0) == opening {
          r := Answer(slot, entry, capacity);
          assert Justified(memory, span, start, entry, capacity, r, end, a, attempts);
          return r, end;
        }
        MissedOneMore(memory, span, start, attempts, a, end);
        EvenAttempt(memory, span, attempts, a, end);
        attempts := attempts + [(a, end)];
        moved := true;
        end := end + 1;
      }
    }
    r := Success(if stalledAt.Some? && !moved then WriterStalled else SlotContended);
    assert Justified(memory, span, start, entry, capacity, r, end, attempts[0].0, attempts);
  }

  lemma {:induction false} OddAttempt(memory: Memory, span: Span, attempts: seq<(nat, nat)>, a: nat,
                                      stalledAt: Option<u64>, moved: bool)
    requires Reachable(memory, span) && span.length >= 8
    requires U64(Cell(memory(a), span), 0) % 2 == 1
    requires Remembers(memory, span, attempts, stalledAt, moved)
    ensures var word := U64(Cell(memory(a), span), 0);
            var later := attempts + [(a, a)];
            if stalledAt.None? then Remembers(memory, span, later, Some(word), moved)
            else Remembers(memory, span, later, stalledAt, moved || stalledAt.value != word)
  {
    var later := attempts + [(a, a)];
    assert later[|attempts|] == (a, a);
    assert forall i :: 0 <= i < |attempts| ==> later[i] == attempts[i];
    forall word | Stalled(memory, span, word, later)
      ensures Stalled(memory, span, word, attempts) && word == U64(Cell(memory(a), span), 0)
    {
    }
    if !moved && stalledAt.Some? {
      assert attempts[0] == later[0];
    }
  }

  lemma {:induction false} EvenAttempt(memory: Memory, span: Span, attempts: seq<(nat, nat)>, a: nat, b: nat)
    requires Reachable(memory, span) && span.length >= 8
    requires U64(Cell(memory(a), span), 0) % 2 == 0
    ensures forall word :: !Stalled(memory, span, word, attempts + [(a, b)])
  {
    assert (attempts + [(a, b)])[|attempts|] == (a, b);
  }

  /** The copy's fields are the slot's own words, level by level. */
  ghost predicate SlotSays(cell: seq<byte>, slot: SlotCopy)
    requires |cell| >= SLOT_PREFIX_BYTES
  {
    && slot.revision == U64(cell, 8) && slot.epoch == U64(cell, 16) && slot.position == U64(cell, 24)
    && slot.authority == U32(cell, 40) && slot.reason == U32(cell, 44)
    && slot.continuityKind == U32(cell, 48) && slot.continuityReason == U32(cell, 52)
    && slot.count == U32(cell, 76) == |slot.levels| && slot.owner == U32(cell, 80) && slot.arrival == U64(cell, 96)
    && |cell| >= 256 + 64 * |slot.levels|
    && forall i :: 0 <= i < |slot.levels| ==> LevelSays(cell, 256 + 64 * i, slot.levels[i])
  }

  ghost predicate LevelSays(cell: seq<byte>, at: nat, level: StoredLevel) {
    && at + 64 <= |cell|
    && level.price == Words(U64(cell, at), U64(cell, at + 8), U32(cell, at + 16))
    && level.quantity == Words(U64(cell, at + 24), U64(cell, at + 32), U32(cell, at + 40))
    && level.side == U32(cell, at + 48)
    && (level.side == 1 || level.side == 2)
  }

  /** A slot published once and left alone is always answered for, and as it is. */
  lemma {:induction false} QuietSlotIsRead(memory: Memory, span: Span, start: nat, entry: nat, capacity: nat,
                                           r: Result<SlotRead, SlotError>, end: nat, a: nat, attempts: seq<(nat, nat)>)
    requires Reachable(memory, span) && SLOT_PREFIX_BYTES + capacity * LEVEL_CELL_BYTES <= span.length
    requires Quiet(memory, span, start)
    requires Justified(memory, span, start, entry, capacity, r, end, a, attempts)
    ensures Answers(r, SlotOf(Cell(memory(start), span), capacity), entry, capacity)
    ensures var cell := Cell(memory(start), span);
            && (U32(cell, 80) != entry ==> r == Success(OwnershipMismatch))
            && (U32(cell, 80) == entry && U32(cell, 76) > capacity ==> r == Success(MalformedRecord))
            && (r.Success? && r.value.State? ==> SlotSays(cell, r.value.slot))
  {
    QuietIsAnswered(memory, span, start, entry, capacity, r, end, a, attempts);
    if r.Success? && r.value.State? {
      SlotSaysItself(Cell(memory(start), span), capacity, r.value.slot);
    }
  }

  lemma {:induction false} QuietIsAnswered(memory: Memory, span: Span, start: nat, entry: nat, capacity: nat,
                                           r: Result<SlotRead, SlotError>, end: nat, a: nat, attempts: seq<(nat, nat)>)
    requires Reachable(memory, span) && SLOT_PREFIX_BYTES + capacity * LEVEL_CELL_BYTES <= span.length
    requires Quiet(memory, span, start)
    requires Justified(memory, span, start, entry, capacity, r, end, a, attempts)
    ensures Answers(r, SlotOf(Cell(memory(start), span), capacity), entry, capacity)
  {
    QuietIsNeverMissed(memory, span, start, attempts);
  }

  lemma {:induction false} SlotSaysItself(cell: seq<byte>, capacity: nat, slot: SlotCopy)
    requires SLOT_PREFIX_BYTES + capacity * LEVEL_CELL_BYTES <= |cell|
    requires slot == SlotOf(cell, capacity) && slot.count <= capacity && AllValid(slot.levels)
    ensures SlotSays(cell, slot)
  {
    forall i | 0 <= i < |slot.levels|
      ensures LevelSays(cell, 256 + 64 * i, slot.levels[i])
    {
      LevelSaysItself(cell, slot.count, i, slot.levels[i]);
    }
  }

  lemma {:induction false} LevelSaysItself(cell: seq<byte>, count: nat, i: nat, level: StoredLevel)
    requires SLOT_PREFIX_BYTES + count * LEVEL_CELL_BYTES <= |cell| && i < count
    requires SLOT_PREFIX_BYTES + (i + 1) * LEVEL_CELL_BYTES <= |cell|
    requires level == LevelOf(cell, i) && ValidLevel(level)
    ensures LevelSays(cell, 256 + 64 * i, level)
  {
  }

  /** `read_slot`: refuses an index outside the segment, reads nothing for the no-state
      marker, and otherwise reads the indexed slot record and nothing else. */
  method ReadSlot(memory: Memory, start: nat, g: Geometry, entry: nat, slotIndex: nat)
    returns (r: Result<SlotRead, SlotError>, end: nat)
    requires CapacityError(g).None? && Sized(memory, SegmentBytes(g))
    ensures slotIndex == 0xFFFF_FFFF ==> r == Success(NoState)
    ensures r == Failure(SlotOutOfRange) <==> slotIndex != 0xFFFF_FFFF && !InRange(g, Slot(slotIndex))
    ensures InRange(g, Slot(slotIndex)) ==>
      && Reachable(memory, SpanOf(g, Slot(slotIndex)))
      && exists a, attempts ::
           Justified(memory, SpanOf(g, Slot(slotIndex)), start, entry, g.levelCapacity, r, end, a, attempts)
  {
    if slotIndex == NO_STATE_SLOT {
      return Success(NoState), start;
    }
    if slotIndex >= g.slotCapacity {
      return Failure(SlotOutOfRange), start;
    }
    RecordIsReachable(memory, g, Slot(slotIndex));
    var base := SlotOffset(g) + slotIndex * SlotStride(g);
    r, end := ReadRecord(memory, start, Span(base, SlotStride(g)), entry, g.levelCapacity);
  }
}
