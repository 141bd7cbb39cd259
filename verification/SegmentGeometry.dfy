/** The shared-memory segment's geometry: what the reader accepts, and how the accepted
    records tile the mapping (examples/reader.py). */
module SegmentGeometry {
  import opened Prelude
  import opened Bits

  const REGION_ALIGNMENT: nat := 128
  const HEADER_BYTES: nat := 256
  const TRAILER_BYTES: nat := 128
  const DIRECTORY_ENTRY_BYTES: nat := 512
  const IDENTITY_CAPACITY: nat := 496
  const SLOT_PREFIX_BYTES: nat := 256
  const LEVEL_CELL_BYTES: nat := 64
  const FAMILY_BYTES: nat := 64
  const EVENT_SLOT_BYTES: nat := 256
  const DIRTY_SLOT_BYTES: nat := 32
  const ABI_VERSION: nat := 5
  const GATE_CLAIMED: nat := 0xFFFF_FFFF_FFFF_FFFF
  const MAX_DIRECTORY_CAPACITY: nat := 65_536
  const MAX_SLOT_CAPACITY: nat := 65_536
  const MAX_LEVEL_CAPACITY: nat := 4_096
  const MAX_EVENT_CAPACITY: nat := 65_536
  const MAX_DIRTY_CAPACITY: nat := 1_048_576
  const WRAPS_BIT: nat := 1
  const DOORBELL_BITS: nat := 6
  const KNOWN_BITS: nat := 7

  type byte = x: int | 0 <= x < 256

  const MAGIC: seq<byte> := [80, 77, 87, 83, 83, 84, 65, 49]
  const TRAILER_MAGIC: seq<byte> := [80, 77, 87, 83, 69, 78, 68, 49]

  // ---------------------------------------------------------------------------------
  // Little-endian words
  // ---------------------------------------------------------------------------------

  function Word(a: int, b: int, c: int, d: int): int {
    a + 0x100 * (b + 0x100 * (c + 0x100 * d))
  }

  function U32(view: seq<byte>, offset: nat): (word: nat)
    requires offset + 4 <= |view|
    ensures word < 0x1_0000_0000
  {
    Word(view[offset], view[offset + 1], view[offset + 2], view[offset + 3])
  }

  function U64(view: seq<byte>, offset: nat): u64
    requires offset + 8 <= |view|
  {
    U32(view, offset) + 0x1_0000_0000 * U32(view, offset + 4)
  }

  /** The published value of a write-once gate. */
  function Gate(view: seq<byte>, offset: nat): Option<u64>
    requires offset + 8 <= |view|
  {
    var value := U64(view, offset);
    if value == 0 || value == GATE_CLAIMED then None else Some(value)
  }

  /** Words are little-endian, the low half of a 64-bit word first. */
  lemma {:induction false} LittleEndian(view: seq<byte>, o: nat)
    requires o + 8 <= |view|
    ensures U32(view, o)
         == view[o] as int + 0x100 * (view[o + 1] as int) + 0x1_0000 * (view[o + 2] as int)
            + 0x100_0000 * (view[o + 3] as int)
    ensures U64(view, o) % 0x1_0000_0000 == U32(view, o) && U64(view, o) / 0x1_0000_0000 == U32(view, o + 4)
  {
  }

  lemma {:induction false} WordIsInjective(a: byte, b: byte, c: byte, d: byte, w: byte, x: byte, y: byte, z: byte)
    ensures Word(a, b, c, d) == Word(w, x, y, z) <==> a == w && b == x && c == y && d == z
  {
    if Word(a, b, c, d) == Word(w, x, y, z) {
      LowByte(a, b + 0x100 * (c + 0x100 * d), w, x + 0x100 * (y + 0x100 * z));
      LowByte(b, c + 0x100 * d, x, y + 0x100 * z);
      LowByte(c, d, y, z);
    }
  }

  lemma {:induction false} LowByte(a: int, rest: int, b: int, other: int)
    requires 0 <= a < 0x100 && 0 <= b < 0x100 && a + 0x100 * rest == b + 0x100 * other
    ensures a == b && rest == other
  {
  }

  lemma {:induction false} FourAreEqual(a: seq<byte>, i: nat, b: seq<byte>, j: nat)
    requires i + 4 <= |a| && j + 4 <= |b|
    ensures a[i..i + 4] == b[j..j + 4] <==>
      a[i] == b[j] && a[i + 1] == b[j + 1] && a[i + 2] == b[j + 2] && a[i + 3] == b[j + 3]
  {
    var x, y := a[i..i + 4], b[j..j + 4];
    assert x[0] == a[i] && x[1] == a[i + 1] && x[2] == a[i + 2] && x[3] == a[i + 3];
    assert y[0] == b[j] && y[1] == b[j + 1] && y[2] == b[j + 2] && y[3] == b[j + 3];
  }

  lemma {:induction false} HalfDeterminesBytes(a: seq<byte>, i: nat, b: seq<byte>, j: nat)
    requires i + 4 <= |a| && j + 4 <= |b|
    ensures U32(a, i) == U32(b, j) <==> a[i..i + 4] == b[j..j + 4]
  {
    FourAreEqual(a, i, b, j);
    WordIsInjective(a[i], a[i + 1], a[i + 2], a[i + 3], b[j], b[j + 1], b[j + 2], b[j + 3]);
  }

  lemma {:induction false} WordsDetermineBytes(a: seq<byte>, i: nat, b: seq<byte>, j: nat)
    requires i + 8 <= |a| && j + 8 <= |b|
    ensures U64(a, i) == U64(b, j) <==> a[i..i + 8] == b[j..j + 8]
  {
    HalfDeterminesBytes(a, i, b, j);
    HalfDeterminesBytes(a, i + 4, b, j + 4);
    HalvesJoin(a[i..i + 8], b[j..j + 8]);
    assert a[i..i + 8][..4] == a[i..i + 4] && a[i..i + 8][4..] == a[i + 4..i + 8];
    assert b[j..j + 8][..4] == b[j..j + 4] && b[j..j + 8][4..] == b[j + 4..j + 8];
  }

  lemma {:induction false} HalvesJoin(x: seq<byte>, y: seq<byte>)
    requires |x| == |y| == 8
    ensures x == y <==> x[..4] == y[..4] && x[4..] == y[4..]
  {
    assert x == x[..4] + x[4..] && y == y[..4] + y[4..];
  }

  lemma {:induction false} ShowsWord(view: seq<byte>, offset: nat, word: seq<byte>)
    requires offset + 8 <= |view| && |word| == 8
    ensures U64(view, offset) == U64(word, 0) <==> view[offset..offset + 8] == word
  {
    WordsDetermineBytes(view, offset, word, 0);
    assert word[0..8] == word;
  }

  /** All eight bytes at the offset are `b`. */
  predicate AllBytes(view: seq<byte>, offset: nat, b: byte)
    requires offset + 8 <= |view|
  {
    forall k :: offset <= k < offset + 8 ==> view[k] == b
  }

  lemma {:induction false} HalfOfOne(view: seq<byte>, o: nat, b: byte)
    requires o + 4 <= |view|
    ensures U32(view, o) == Word(b, b, b, b) <==>
      view[o] == b && view[o + 1] == b && view[o + 2] == b && view[o + 3] == b
  {
    WordIsInjective(view[o], view[o + 1], view[o + 2], view[o + 3], b, b, b, b);
  }

  lemma {:induction false} HalvesOf(low: int, high: int, x: int, y: int)
    requires 0 <= low < 0x1_0000_0000 && 0 <= x < 0x1_0000_0000
    ensures low + 0x1_0000_0000 * high == x + 0x1_0000_0000 * y <==> low == x && high == y
  {
  }

  lemma {:induction false} WordOfOne(view: seq<byte>, o: nat, b: byte, half: nat, word: nat)
    requires o + 8 <= |view| && half == Word(b, b, b, b) < 0x1_0000_0000 && word == half + 0x1_0000_0000 * half
    ensures U64(view, o) == word <==> AllBytes(view, o, b)
  {
    HalfOfOne(view, o, b);
    HalfOfOne(view, o + 4, b);
    HalvesOf(U32(view, o), U32(view, o + 4), half, half);
  }

  /** A gate shows nothing exactly when it is untouched, all zero bits, or claimed, all
      one bits. */
  lemma {:induction false} GateIsShut(view: seq<byte>, offset: nat)
    requires offset + 8 <= |view|
    ensures Gate(view, offset).None? <==> AllBytes(view, offset, 0) || AllBytes(view, offset, 255)
    ensures Gate(view, offset).Some? ==> Gate(view, offset).value == U64(view, offset)
  {
    ZeroWord(view, offset);
    ClaimedWord(view, offset);
  }

  lemma {:induction false} ZeroHalf(a: byte, b: byte, c: byte, d: byte)
    ensures Word(a, b, c, d) == 0 <==> a == 0 && b == 0 && c == 0 && d == 0
  {
  }

  lemma {:induction false} ZeroSum(low: nat, high: nat)
    ensures low + 0x1_0000_0000 * high == 0 <==> low == 0 && high == 0
  {
  }

  lemma {:induction false} ZeroWord(view: seq<byte>, o: nat)
    requires o + 8 <= |view|
    ensures U64(view, o) == 0 <==> AllBytes(view, o, 0)
  {
    ZeroHalf(view[o], view[o + 1], view[o + 2], view[o + 3]);
    ZeroHalf(view[o + 4], view[o + 5], view[o + 6], view[o + 7]);
    ZeroSum(U32(view, o), U32(view, o + 4));
  }

  lemma {:induction false} ClaimedWord(view: seq<byte>, o: nat)
    requires o + 8 <= |view|
    ensures U64(view, o) == GATE_CLAIMED <==> AllBytes(view, o, 255)
  {
    assert Word(255, 255, 255, 255) == 0xFFFF_FFFF;
    WordOfOne(view, o, 255, 0xFFFF_FFFF, GATE_CLAIMED);
  }

  // ---------------------------------------------------------------------------------
  // Geometry
  // ---------------------------------------------------------------------------------

  function RoundUp(value: nat): int {
    -((-(value as int)) / REGION_ALIGNMENT) * REGION_ALIGNMENT
  }

  /** Rounding gives the least aligned size that is large enough. */
  lemma {:induction false} RoundUpIsLeast(value: nat)
    ensures RoundUp(value) % REGION_ALIGNMENT == 0
    ensures value <= RoundUp(value) < value + REGION_ALIGNMENT
  {
  }

  /** The five capacities, from which every stride and offset is recomputed, and the
      segment's identity. */
  datatype Geometry = Geometry(
    directoryCapacity: nat,
    slotCapacity: nat,
    levelCapacity: nat,
    eventCapacity: nat,
    dirtyCapacity: nat,
    instanceId: nat,
    generation: nat)

  function SlotStride(g: Geometry): (stride: nat)
    ensures stride >= SLOT_PREFIX_BYTES + g.levelCapacity * LEVEL_CELL_BYTES && stride % REGION_ALIGNMENT == 0
  {
    RoundUpIsLeast(SLOT_PREFIX_BYTES + g.levelCapacity * LEVEL_CELL_BYTES);
    RoundUp(SLOT_PREFIX_BYTES + g.levelCapacity * LEVEL_CELL_BYTES)
  }

  function SlotOffset(g: Geometry): nat {
    HEADER_BYTES + g.directoryCapacity * DIRECTORY_ENTRY_BYTES
  }

  function EventOffset(g: Geometry): nat {
    SlotOffset(g) + g.slotCapacity * SlotStride(g)
  }

  function RingBytes(g: Geometry): nat {
    g.eventCapacity * EVENT_SLOT_BYTES
  }

  function DirtyOffset(g: Geometry): nat {
    EventOffset(g) + g.directoryCapacity * RingBytes(g)
  }

  function TrailerOffset(g: Geometry): nat {
    DirtyOffset(g) + g.dirtyCapacity * DIRTY_SLOT_BYTES
  }

  function SegmentBytes(g: Geometry): nat {
    TrailerOffset(g) + TRAILER_BYTES
  }

  // ---------------------------------------------------------------------------------
  // Records tile the segment
  // ---------------------------------------------------------------------------------

  datatype Span = Span(start: nat, length: nat) {
    function End(): nat {
      start + length
    }

    predicate Holds(offset: int) {
      start <= offset < End()
    }
  }

  datatype Record =
    | HeaderRecord
    | Entry(index: nat)
    | Slot(index: nat)
    | Event(ring: nat, index: nat)
    | Dirty(index: nat)
    | TrailerRecord

  predicate InRange(g: Geometry, r: Record) {
    match r
    case HeaderRecord => true
    case Entry(i) => i < g.directoryCapacity
    case Slot(i) => i < g.slotCapacity
    case Event(ring, i) => ring < g.directoryCapacity && i < g.eventCapacity
    case Dirty(i) => i < g.dirtyCapacity
    case TrailerRecord => true
  }

  function SpanOf(g: Geometry, r: Record): Span {
    match r
    case HeaderRecord => Span(0, HEADER_BYTES)
    case Entry(i) => Span(HEADER_BYTES + i * DIRECTORY_ENTRY_BYTES, DIRECTORY_ENTRY_BYTES)
    case Slot(i) => Span(SlotOffset(g) + i * SlotStride(g), SlotStride(g))
    case Event(ring, i) => Span(EventOffset(g) + ring * RingBytes(g) + i * EVENT_SLOT_BYTES, EVENT_SLOT_BYTES)
    case Dirty(i) => Span(DirtyOffset(g) + i * DIRTY_SLOT_BYTES, DIRTY_SLOT_BYTES)
    case TrailerRecord => Span(TrailerOffset(g), TRAILER_BYTES)
  }

  /** The event record a byte of the rings belongs to. */
  ghost function EventAt(within: nat, ring: nat): Record
    requires ring > 0
  {
    Event(within / ring, within % ring / EVENT_SLOT_BYTES)
  }

  /** Which record a byte belongs to, found by division. */
  ghost function RecordAt(g: Geometry, offset: nat): Record
    requires g.eventCapacity > 0
  {
    if offset < HEADER_BYTES then HeaderRecord
    else if offset < SlotOffset(g) then Entry((offset - HEADER_BYTES) / DIRECTORY_ENTRY_BYTES)
    else if offset < EventOffset(g) then Slot((offset - SlotOffset(g)) / SlotStride(g))
    else if offset < DirtyOffset(g) then
      EventAt(offset - EventOffset(g), RingBytes(g))
    else if offset < TrailerOffset(g) then Dirty((offset - DirtyOffset(g)) / DIRTY_SLOT_BYTES)
    else TrailerRecord
  }

  lemma {:induction false} Quotient(x: nat, stride: nat, i: nat)
    requires stride > 0
    ensures i * stride <= x < i * stride + stride <==> i == x / stride
  {
    if i * stride <= x < i * stride + stride {
      Remainder(x, stride, i, x - i * stride);
    }
  }

  /** In a table of `count` records of `stride` bytes, a byte lies in record `i` exactly
      when it lies in the table and division names `i`. */
  lemma {:induction false} TableIndex(x: int, stride: nat, count: nat, i: nat)
    requires stride > 0
    ensures i < count && i * stride <= x < i * stride + stride
       <==> 0 <= x < count * stride && i == x / stride
  {
    if 0 <= x {
      Quotient(x, stride, i);
      if i < count {
        MultipleGap(stride, i, count);
      }
      if i == x / stride && count <= i && count < i {
        MultipleGap(stride, count, i);
      }
    } else {
      assert i * stride >= 0;
    }
  }

  lemma {:induction false} RingIndex(g: Geometry, x: int, ring: nat, i: nat)
    requires g.eventCapacity > 0
    ensures
      (ring < g.directoryCapacity && i < g.eventCapacity
       && ring * RingBytes(g) + i * EVENT_SLOT_BYTES <= x
       && x < ring * RingBytes(g) + i * EVENT_SLOT_BYTES + EVENT_SLOT_BYTES)
      <==> (0 <= x < g.directoryCapacity * RingBytes(g)
            && ring == x / RingBytes(g) && i == x % RingBytes(g) / EVENT_SLOT_BYTES)
  {
    TableIndex(x, RingBytes(g), g.directoryCapacity, ring);
    TableIndex(x - ring * RingBytes(g), EVENT_SLOT_BYTES, g.eventCapacity, i);
  }

  lemma {:induction false} TablesFollow(g: Geometry)
    ensures HEADER_BYTES <= SlotOffset(g) <= EventOffset(g) <= DirtyOffset(g) <= TrailerOffset(g)
  {
  }

  /** Every byte of the segment lies in exactly one record, and no record reaches outside
      it: the records are pairwise disjoint and fill the segment. */
  lemma {:induction false} RecordsTile(g: Geometry, r: Record, offset: int)
    requires g.eventCapacity > 0
    ensures InRange(g, r) && SpanOf(g, r).Holds(offset)
       <==> 0 <= offset < SegmentBytes(g) && r == RecordAt(g, offset)
  {
    TablesFollow(g);
    match r
    case HeaderRecord =>
    case Entry(i) => EntriesTile(g, i, offset);
    case Slot(i) => SlotsTile(g, i, offset);
    case Event(ring, i) => EventsTile(g, ring, i, offset);
    case Dirty(i) => DirtyTile(g, i, offset);
    case TrailerRecord =>
  }

  lemma {:induction false} EntriesTile(g: Geometry, i: nat, offset: int)
    ensures InRange(g, Entry(i)) && SpanOf(g, Entry(i)).Holds(offset)
       <==> HEADER_BYTES <= offset < SlotOffset(g) && i == (offset - HEADER_BYTES) / DIRECTORY_ENTRY_BYTES
  {
    TableIndex(offset - HEADER_BYTES, DIRECTORY_ENTRY_BYTES, g.directoryCapacity, i);
  }

  lemma {:induction false} SlotsTile(g: Geometry, i: nat, offset: int)
    ensures InRange(g, Slot(i)) && SpanOf(g, Slot(i)).Holds(offset)
       <==> SlotOffset(g) <= offset < EventOffset(g) && i == (offset - SlotOffset(g)) / SlotStride(g)
  {
    TableIndex(offset - SlotOffset(g), SlotStride(g), g.slotCapacity, i);
  }

  lemma {:induction false} EventsTile(g: Geometry, ring: nat, i: nat, offset: int)
    requires g.eventCapacity > 0
    ensures InRange(g, Event(ring, i)) && SpanOf(g, Event(ring, i)).Holds(offset)
       <==> EventOffset(g) <= offset < DirtyOffset(g)
            && ring == (offset - EventOffset(g)) / RingBytes(g)
            && i == (offset - EventOffset(g)) % RingBytes(g) / EVENT_SLOT_BYTES
  {
    RingIndex(g, offset - EventOffset(g), ring, i);
  }

  lemma {:induction false} DirtyTile(g: Geometry, i: nat, offset: int)
    ensures InRange(g, Dirty(i)) && SpanOf(g, Dirty(i)).Holds(offset)
       <==> DirtyOffset(g) <= offset < TrailerOffset(g) && i == (offset - DirtyOffset(g)) / DIRTY_SLOT_BYTES
  {
    TableIndex(offset - DirtyOffset(g), DIRTY_SLOT_BYTES, g.dirtyCapacity, i);
  }

  lemma {:induction false} RecordFits(g: Geometry, r: Record)
    requires g.eventCapacity > 0 && InRange(g, r)
    ensures SpanOf(g, r).End() <= SegmentBytes(g)
  {
    RecordsTile(g, r, SpanOf(g, r).End() - 1);
  }

  lemma {:induction false} RecordsAreDisjoint(g: Geometry, r: Record, s: Record, offset: int)
    requires g.eventCapacity > 0 && InRange(g, r) && InRange(g, s)
    requires SpanOf(g, r).Holds(offset) && SpanOf(g, s).Holds(offset)
    ensures r == s
  {
    RecordsTile(g, r, offset);
    RecordsTile(g, s, offset);
  }

  // ---------------------------------------------------------------------------------
  // Validation
  // ---------------------------------------------------------------------------------

  datatype AbiError =
    | UnusableRegion
    | HeaderMagic
    | Version
    | Alignment
    | DeclaredSize
    | Features
    | CapacityRange
    | EventCapacityShape
    | DirtyCapacityShape
    | Mismatch(declared: nat, recomputed: nat)
    | TrailerMagicMissing
    | TrailerEcho

  predicate FeaturesSupported(features: nat) {
    && AndNot(features, KNOWN_BITS) == 0
    && And(features, WRAPS_BIT) != 0
    && (And(features, DOORBELL_BITS) == 2 || And(features, DOORBELL_BITS) == 4)
  }

  lemma {:induction false} UnknownBits(x: nat)
    ensures AndNot(x, 7) == x / 8 * 8
  {
    AndNotZero(x / 8);
    Eighth(x);
    assert AndNot(x / 4, 1) == 2 * AndNot(x / 4 / 2, 0);
    assert AndNot(x / 2, 3) == 2 * AndNot(x / 2 / 2, 1);
  }

  lemma {:induction false} Eighth(x: nat)
    ensures x / 2 / 2 == x / 4 && x / 4 / 2 == x / 8
  {
  }

  /** Wrapping rings and exactly one doorbell placement: two words are supported. */
  lemma {:induction false} SupportedFeatureWords(features: nat)
    ensures FeaturesSupported(features) <==> features == 3 || features == 5
  {
    UnknownBits(features);
    if features < 8 {
      SmallMasks(features);
    }
  }

  lemma {:induction false} SmallMasks(x: nat)
    requires x < 8
    ensures And(x, 1) == x % 2
    ensures And(x, 6) == x / 2 * 2
  {
    assert And(x / 2, 3) == 2 * And(x / 4, 1) + x / 2 % 2;
    assert And(x / 4, 1) == x / 4;
  }

  /** The checks made before any capacity is read. */
  function PreambleError(view: seq<byte>): Option<AbiError> {
    if |view| < HEADER_BYTES + TRAILER_BYTES || |view| % REGION_ALIGNMENT != 0 then Some(UnusableRegion)
    else if Gate(view, 0) != Some(U64(MAGIC, 0)) then Some(HeaderMagic)
    else if U32(view, 8) != ABI_VERSION then Some(Version)
    else if U32(view, 12) != REGION_ALIGNMENT then Some(Alignment)
    else if U64(view, 16) != |view| then Some(DeclaredSize)
    else if !FeaturesSupported(U64(view, 104)) then Some(Features)
    else None
  }

  function CapacityError(g: Geometry): Option<AbiError> {
    if !(0 < g.directoryCapacity <= g.slotCapacity) then Some(CapacityRange)
    else if g.directoryCapacity > MAX_DIRECTORY_CAPACITY || g.slotCapacity > MAX_SLOT_CAPACITY then Some(CapacityRange)
    else if !(0 < g.levelCapacity <= MAX_LEVEL_CAPACITY) then Some(CapacityRange)
    else if !(0 < g.eventCapacity <= MAX_EVENT_CAPACITY) then Some(CapacityRange)
    else if And(g.eventCapacity, g.eventCapacity - 1) != 0 then Some(EventCapacityShape)
    else if !(0 < g.dirtyCapacity <= MAX_DIRTY_CAPACITY) then Some(CapacityRange)
    else if And(g.dirtyCapacity, g.dirtyCapacity - 1) != 0 then Some(DirtyCapacityShape)
    else None
  }

  /** The capacities and identity the header declares. */
  function Declared(view: seq<byte>): Geometry
    requires |view| >= HEADER_BYTES
  {
    Geometry(U32(view, 60), U32(view, 76), U32(view, 80), U32(view, 120), U32(view, 152),
             U64(view, 32) * 0x1_0000_0000_0000_0000 + U64(view, 24), U64(view, 40))
  }

  /** Each declared geometry word with the value recomputed for it. */
  function Expected(view: seq<byte>, g: Geometry): seq<(nat, nat)>
    requires |view| >= HEADER_BYTES
  {
    [(U64(view, 48), HEADER_BYTES),
     (U32(view, 56), DIRECTORY_ENTRY_BYTES),
     (U64(view, 64), SlotOffset(g)),
     (U32(view, 72), SlotStride(g)),
     (U32(view, 84), LEVEL_CELL_BYTES),
     (U32(view, 88), IDENTITY_CAPACITY),
     (U32(view, 92), FAMILY_BYTES),
     (U64(view, 112), EventOffset(g)),
     (U32(view, 124), EVENT_SLOT_BYTES),
     (U64(view, 144), DirtyOffset(g)),
     (U32(view, 156), DIRTY_SLOT_BYTES),
     (U64(view, 96), TrailerOffset(g)),
     (SegmentBytes(g), |view|)]
  }

  ghost predicate Agree(pairs: seq<(nat, nat)>) {
    forall i :: 0 <= i < |pairs| ==> pairs[i].0 == pairs[i].1
  }

  ghost predicate Consistent(view: seq<byte>, g: Geometry)
    requires |view| >= HEADER_BYTES
  {
    && CapacityError(g).None?
    && Agree(Expected(view, g))
    && |view| == SegmentBytes(g)
    && Gate(view, TrailerOffset(g) + 8) == Some(U64(TRAILER_MAGIC, 0))
    && U64(view, TrailerOffset(g)) == |view|
  }

  /** The mapping declares this geometry, consistently from header to trailer. */
  ghost predicate Describes(view: seq<byte>, g: Geometry) {
    PreambleError(view).None? && g == Declared(view) && Consistent(view, g)
  }

  /** The comparison loop of `validate`: the first pair that differs, if any. */
  method FirstMismatch(pairs: seq<(nat, nat)>) returns (r: Option<AbiError>)
    ensures r.None? <==> Agree(pairs)
    ensures r.Some? ==> r.value.Mismatch? && (r.value.declared, r.value.recomputed) in pairs
  {
    for i := 0 to |pairs|
      invariant forall k :: 0 <= k < i ==> pairs[k].0 == pairs[k].1
    {
      if pairs[i].0 != pairs[i].1 {
        return Some(Mismatch(pairs[i].0, pairs[i].1));
      }
    }
    return None;
  }

  lemma {:induction false} LastPair(view: seq<byte>, g: Geometry)
    requires |view| >= HEADER_BYTES && Agree(Expected(view, g))
    ensures |view| == SegmentBytes(g)
  {
    assert Expected(view, g)[12] == (SegmentBytes(g), |view|);
  }

  method CheckTrailer(view: seq<byte>, t: nat) returns (r: Option<AbiError>)
    requires t + 16 <= |view|
    ensures r.None? <==> Gate(view, t + 8) == Some(U64(TRAILER_MAGIC, 0)) && U64(view, t) == |view|
  {
    if Gate(view, t + 8) != Some(U64(TRAILER_MAGIC, 0)) {
      return Some(TrailerMagicMissing);
    }
    if U64(view, t) != |view| {
      return Some(TrailerEcho);
    }
    return None;
  }

  method CheckConsistent(view: seq<byte>, g: Geometry) returns (r: Option<AbiError>)
    requires |view| >= HEADER_BYTES
    ensures r.None? <==> Consistent(view, g)
  {
    r := CapacityError(g);
    if r.Some? {
      return;
    }
    r := FirstMismatch(Expected(view, g));
    if r.Some? {
      return;
    }
    LastPair(view, g);
    r := CheckTrailer(view, TrailerOffset(g));
  }

  // ---------------------------------------------------------------------------------
  // Acceptance, word by word
  // ---------------------------------------------------------------------------------

  /** The bytes of an ASCII text. */
  function Ascii(text: string): seq<byte>
    requires forall i :: 0 <= i < |text| ==> text[i] as int < 128
  {
    seq(|text|, i requires 0 <= i < |text| => text[i] as int)
  }

  /** What the header says of itself. */
  ghost predicate HeaderWords(view: seq<byte>) {
    && |view| >= 384 && |view| % 128 == 0
    && view[0..8] == Ascii("PMWSSTA1")
    && U32(view, 8) == 5
    && U32(view, 12) == 128
    && U64(view, 16) == |view|
    && (U64(view, 104) == 3 || U64(view, 104) == 5)
  }

  /** The geometry's fields are the header's words. */
  ghost predicate CapacityWords(view: seq<byte>, g: Geometry)
    requires |view| >= 384
  {
    && g.directoryCapacity == U32(view, 60)
    && g.slotCapacity == U32(view, 76)
    && g.levelCapacity == U32(view, 80)
    && g.eventCapacity == U32(view, 120)
    && g.dirtyCapacity == U32(view, 152)
    && g.instanceId == U64(view, 24) + 0x1_0000_0000_0000_0000 * U64(view, 32)
    && g.generation == U64(view, 40)
  }

  ghost predicate WithinLimits(g: Geometry) {
    && 1 <= g.directoryCapacity <= g.slotCapacity <= 65_536
    && 1 <= g.levelCapacity <= 4_096
    && 1 <= g.eventCapacity <= 65_536 && IsPowerOfTwo(g.eventCapacity)
    && 1 <= g.dirtyCapacity <= 1_048_576 && IsPowerOfTwo(g.dirtyCapacity)
  }

  /** Every declared stride and offset follows from the capacities, region after region,
      up to a trailer that ends the mapping. */
  ghost predicate LayoutWords(view: seq<byte>, g: Geometry)
    requires |view| >= 384
  {
    var stride := U32(view, 72);
    && U64(view, 48) == 256 && U32(view, 56) == 512
    && stride % 128 == 0 && 256 + 64 * g.levelCapacity <= stride < 384 + 64 * g.levelCapacity
    && U32(view, 84) == 64 && U32(view, 88) == 496 && U32(view, 92) == 64
    && U64(view, 64) == 256 + 512 * g.directoryCapacity
    && U64(view, 112) == U64(view, 64) + g.slotCapacity * stride && U32(view, 124) == 256
    && U64(view, 144) == U64(view, 112) + g.directoryCapacity * (256 * g.eventCapacity) && U32(view, 156) == 32
    && U64(view, 96) == U64(view, 144) + 32 * g.dirtyCapacity
    && U64(view, 96) + 128 == |view|
  }

  ghost predicate TrailerWords(view: seq<byte>)
    requires |view| >= 384
  {
    && U64(view, 96) + 16 <= |view|
    && U64(view, U64(view, 96)) == |view|
    && view[U64(view, 96) + 8..U64(view, 96) + 16] == Ascii("PMWSEND1")
  }

  /** The mapping is a segment of this geometry, judged on its own words and bytes. */
  ghost predicate WellFormed(view: seq<byte>, g: Geometry) {
    HeaderWords(view) && CapacityWords(view, g) && WithinLimits(g) && LayoutWords(view, g) && TrailerWords(view)
  }

  lemma {:induction false} Markers()
    ensures Ascii("PMWSSTA1") == MAGIC && Ascii("PMWSEND1") == TRAILER_MAGIC
    ensures Published(U64(MAGIC, 0)) && Published(U64(TRAILER_MAGIC, 0))
  {
  }

  ghost predicate Published(word: nat) {
    word != 0 && word != GATE_CLAIMED
  }

  lemma {:induction false} Marked(view: seq<byte>, offset: nat, mark: seq<byte>)
    requires offset + 8 <= |view| && |mark| == 8
    requires Gate(view, offset) == Some(U64(mark, 0))
    ensures view[offset..offset + 8] == mark
  {
    ShowsWord(view, offset, mark);
  }

  /** A gate shows a marker exactly when its bytes are the marker's. */
  lemma {:induction false} GateShows(view: seq<byte>, offset: nat, mark: seq<byte>)
    requires offset + 8 <= |view| && |mark| == 8 && Published(U64(mark, 0))
    ensures Gate(view, offset) == Some(U64(mark, 0)) <==> view[offset..offset + 8] == mark
  {
    ShowsWord(view, offset, mark);
  }

  lemma {:induction false} PreambleIsHeaderWords(view: seq<byte>)
    ensures PreambleError(view).None? <==> HeaderWords(view)
  {
    Markers();
    if |view| >= 384 {
      GateShows(view, 0, MAGIC);
      SupportedFeatureWords(U64(view, 104));
    }
  }

  lemma {:induction false} CapacitiesAreWithinLimits(g: Geometry)
    ensures CapacityError(g).None? <==> WithinLimits(g)
  {
    if g.eventCapacity > 0 {
      TestIsPowerOfTwo(g.eventCapacity);
    }
    if g.dirtyCapacity > 0 {
      TestIsPowerOfTwo(g.dirtyCapacity);
    }
  }

  lemma {:induction false} StrideIsLeast(level: nat, stride: nat)
    ensures stride == RoundUp(256 + 64 * level) <==> stride % 128 == 0 && 256 + 64 * level <= stride < 384 + 64 * level
  {
    RoundUpIsLeast(256 + 64 * level);
    SameMultiple(stride, RoundUp(256 + 64 * level));
  }

  lemma {:induction false} SameMultiple(x: int, y: int)
    requires y % 128 == 0
    ensures x % 128 == 0 && -128 < x - y < 128 ==> x == y
  {
  }

  /** The thirteen comparisons, written out. */
  lemma {:induction false} PairsWrittenOut(view: seq<byte>, g: Geometry)
    requires |view| >= HEADER_BYTES
    ensures Agree(Expected(view, g)) <==>
      && U64(view, 48) == 256 && U32(view, 56) == 512
      && U64(view, 64) == SlotOffset(g) && U32(view, 72) == SlotStride(g)
      && U32(view, 84) == 64 && U32(view, 88) == 496 && U32(view, 92) == 64
      && U64(view, 112) == EventOffset(g) && U32(view, 124) == 256
      && U64(view, 144) == DirtyOffset(g) && U32(view, 156) == 32
      && U64(view, 96) == TrailerOffset(g)
      && SegmentBytes(g) == |view|
  {
    var p := Expected(view, g);
    if Agree(p) {
      assert p[0].0 == p[0].1 && p[1].0 == p[1].1 && p[2].0 == p[2].1 && p[3].0 == p[3].1;
      assert p[4].0 == p[4].1 && p[5].0 == p[5].1 && p[6].0 == p[6].1 && p[7].0 == p[7].1;
      assert p[8].0 == p[8].1 && p[9].0 == p[9].1 && p[10].0 == p[10].1 && p[11].0 == p[11].1;
      assert p[12].0 == p[12].1;
    }
  }

  lemma {:induction false} PairsAreLayoutWords(view: seq<byte>, g: Geometry)
    requires |view| >= 384
    ensures Agree(Expected(view, g)) <==> LayoutWords(view, g)
  {
    PairsWrittenOut(view, g);
    StrideIsLeast(g.levelCapacity, U32(view, 72));
  }

  lemma {:induction false} TrailerIsWords(view: seq<byte>, t: nat)
    requires t + 16 <= |view|
    ensures Gate(view, t + 8) == Some(U64(TRAILER_MAGIC, 0)) <==> view[t + 8..t + 16] == Ascii("PMWSEND1")
  {
    Markers();
    GateShows(view, t + 8, TRAILER_MAGIC);
  }

  lemma {:induction false} ConsistentIsWords(view: seq<byte>, g: Geometry)
    requires |view| >= 384
    ensures Consistent(view, g) <==> WithinLimits(g) && LayoutWords(view, g) && TrailerWords(view)
  {
    CapacitiesAreWithinLimits(g);
    PairsAreLayoutWords(view, g);
    PairsWrittenOut(view, g);
    if Agree(Expected(view, g)) {
      TrailerIsWords(view, TrailerOffset(g));
    }
  }

  /** The reader's checks amount to the mapping being well formed, word by word. */
  lemma {:induction false} DescribesIsWellFormed(view: seq<byte>, g: Geometry)
    ensures Describes(view, g) <==> WellFormed(view, g)
  {
    PreambleIsHeaderWords(view);
    if HeaderWords(view) {
      ConsistentIsWords(view, g);
      assert g == Declared(view) <==> CapacityWords(view, g);
    }
  }

  /** `validate`: a mapping is accepted exactly when it is well formed under some geometry,
      and then with that geometry. */
  method Validate(view: seq<byte>) returns (r: Result<Geometry, AbiError>)
    ensures forall g :: WellFormed(view, g) <==> r == Success(g)
  {
    forall g
      ensures Describes(view, g) <==> WellFormed(view, g)
    {
      DescribesIsWellFormed(view, g);
    }
    var preamble := PreambleError(view);
    if preamble.Some? {
      return Failure(preamble.value);
    }
    var defect := CheckConsistent(view, Declared(view));
    if defect.Some? {
      return Failure(defect.value);
    }
    return Success(Declared(view));
  }

  // ---------------------------------------------------------------------------------
  // What acceptance implies
  // ---------------------------------------------------------------------------------

  /** In an accepted mapping the records tile it byte for byte. */
  lemma {:induction false} AcceptedTiles(view: seq<byte>, g: Geometry, r: Record, offset: int)
    requires WellFormed(view, g)
    ensures InRange(g, r) && SpanOf(g, r).Holds(offset) <==> 0 <= offset < |view| && r == RecordAt(g, offset)
  {
    DescribesIsWellFormed(view, g);
    RecordsTile(g, r, offset);
  }

  /** Both ends of an accepted mapping carry their marker, byte for byte. */
  lemma {:induction false} AcceptedIsMarked(view: seq<byte>, g: Geometry)
    requires Describes(view, g)
    ensures view[0..8] == MAGIC
    ensures view[TrailerOffset(g) + 8..TrailerOffset(g) + 16] == TRAILER_MAGIC
  {
    Marked(view, 0, MAGIC);
    Marked(view, TrailerOffset(g) + 8, TRAILER_MAGIC);
  }

  lemma {:induction false} AlignedProduct(count: nat, stride: nat)
    requires stride % REGION_ALIGNMENT == 0
    ensures count * stride % REGION_ALIGNMENT == 0
  {
    var k := stride / REGION_ALIGNMENT;
    assert count * stride == REGION_ALIGNMENT * (count * k);
    Remainder(count * stride, REGION_ALIGNMENT, count * k, 0);
  }

  lemma {:induction false} AlignedSum(x: nat, y: nat)
    requires x % REGION_ALIGNMENT == 0 && y % REGION_ALIGNMENT == 0
    ensures (x + y) % REGION_ALIGNMENT == 0
  {
  }

  lemma {:induction false} TableAligns(offset: nat, count: nat, stride: nat)
    requires offset % REGION_ALIGNMENT == 0 && stride % REGION_ALIGNMENT == 0
    ensures (offset + count * stride) % REGION_ALIGNMENT == 0
  {
    AlignedProduct(count, stride);
    AlignedSum(offset, count * stride);
  }

  lemma {:induction false} LargeTablesAlign(g: Geometry)
    ensures SlotOffset(g) % REGION_ALIGNMENT == 0
    ensures EventOffset(g) % REGION_ALIGNMENT == 0
    ensures DirtyOffset(g) % REGION_ALIGNMENT == 0
  {
    TableAligns(HEADER_BYTES, g.directoryCapacity, DIRECTORY_ENTRY_BYTES);
    TableAligns(SlotOffset(g), g.slotCapacity, SlotStride(g));
    RingAligns(g.eventCapacity);
    TableAligns(EventOffset(g), g.directoryCapacity, RingBytes(g));
  }

  lemma {:induction false} RingAligns(capacity: nat)
    ensures capacity * EVENT_SLOT_BYTES % REGION_ALIGNMENT == 0
  {
  }

  lemma {:induction false} QuarterAligned(offset: nat, count: nat)
    requires offset % REGION_ALIGNMENT == 0
    requires (offset + count * DIRTY_SLOT_BYTES + TRAILER_BYTES) % REGION_ALIGNMENT == 0
    ensures count % 4 == 0 && (offset + count * DIRTY_SLOT_BYTES) % REGION_ALIGNMENT == 0
  {
  }

  lemma {:induction false} AcceptedSize(view: seq<byte>, g: Geometry)
    requires WellFormed(view, g)
    ensures |view| == SegmentBytes(g) && |view| % REGION_ALIGNMENT == 0
  {
    DescribesIsWellFormed(view, g);
  }

  lemma {:induction false} AlignedThroughout(g: Geometry)
    requires SegmentBytes(g) % REGION_ALIGNMENT == 0
    ensures SlotOffset(g) % REGION_ALIGNMENT == 0 && EventOffset(g) % REGION_ALIGNMENT == 0
    ensures DirtyOffset(g) % REGION_ALIGNMENT == 0 && TrailerOffset(g) % REGION_ALIGNMENT == 0
    ensures g.dirtyCapacity % 4 == 0
  {
    LargeTablesAlign(g);
    QuarterAligned(DirtyOffset(g), g.dirtyCapacity);
  }

  /** Every table of an accepted mapping starts on an alignment boundary; so the dirty
      ring has at least four entries, although the capacity checks alone admit one. */
  lemma {:induction false} AcceptedIsAligned(view: seq<byte>, g: Geometry)
    requires WellFormed(view, g)
    ensures SlotOffset(g) % REGION_ALIGNMENT == 0 && EventOffset(g) % REGION_ALIGNMENT == 0
    ensures DirtyOffset(g) % REGION_ALIGNMENT == 0 && TrailerOffset(g) % REGION_ALIGNMENT == 0
    ensures g.dirtyCapacity % 4 == 0
  {
    AcceptedSize(view, g);
    AlignedThroughout(g);
  }
}
