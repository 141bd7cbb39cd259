/** Finding a market in the segment's directory (examples/reader.py), under memory that may
    change between any two reads. */
module SegmentDirectory {
  import opened Prelude
  import opened SegmentGeometry
  import opened SegmentReader

  // ---------------------------------------------------------------------------------
  // Identities
  // ---------------------------------------------------------------------------------

  /** A market's three identifiers, as their encoded bytes. */
  datatype Identity = Identity(venue: seq<byte>, kind: seq<byte>, value: seq<byte>)

  function U16(view: seq<byte>, offset: nat): nat
    requires offset + 2 <= |view|
  {
    Word(view[offset], view[offset + 1], 0, 0)
  }

  /** `decode_identity`: three lengths, then the three texts one after the other. */
  function DecodeIdentity(raw: seq<byte>): Option<Identity> {
    if |raw| < 8 then None
    else
      var venue, kind, value := U16(raw, 0), U16(raw, 2), U32(raw, 4);
      var body := raw[8..];
      if |body| < venue + kind + value then None
      else Some(Identity(body[..venue], body[venue..venue + kind], body[venue + kind..venue + kind + value]))
  }

  lemma {:induction false} ThreeParts(body: seq<byte>, id: Identity)
    requires |body| >= |id.venue| + |id.kind| + |id.value|
    ensures var v, k, n := |id.venue|, |id.kind|, |id.value|;
            body[..v] == id.venue && body[v..v + k] == id.kind && body[v + k..v + k + n] == id.value
            <==> body[..v + k + n] == id.venue + id.kind + id.value
  {
    var v, k, n := |id.venue|, |id.kind|, |id.value|;
    var all := id.venue + id.kind + id.value;
    assert all[..v] == id.venue && all[v..v + k] == id.kind && all[v + k..] == id.value;
    assert body[..v + k + n] == body[..v] + body[v..v + k] + body[v + k..v + k + n];
    assert body[..v + k + n][..v] == body[..v];
    assert body[..v + k + n][v..v + k] == body[v..v + k];
    assert body[..v + k + n][v + k..] == body[v + k..v + k + n];
  }

  /** Bytes decode to an identity exactly when they hold its three lengths and then its
      three texts, whatever follows. */
  lemma {:induction false} DecodesIdentityExactly(raw: seq<byte>, id: Identity)
    ensures DecodeIdentity(raw) == Some(id) <==>
      && |raw| >= 8 + |id.venue| + |id.kind| + |id.value|
      && U16(raw, 0) == |id.venue| && U16(raw, 2) == |id.kind| && U32(raw, 4) == |id.value|
      && raw[8..][..|id.venue| + |id.kind| + |id.value|] == id.venue + id.kind + id.value
  {
    if |raw| >= 8 + |id.venue| + |id.kind| + |id.value| {
      ThreeParts(raw[8..], id);
    }
  }

  // ---------------------------------------------------------------------------------
  // Lookup
  // ---------------------------------------------------------------------------------

  /** A published entry whose identity text fits and is the one sought. */
  ghost predicate Names(cell: seq<byte>, id: Identity)
    requires |cell| == DIRECTORY_ENTRY_BYTES
  {
    && Gate(cell, 0).Some?
    && U32(cell, 12) <= IDENTITY_CAPACITY
    && DecodeIdentity(cell[16..16 + U32(cell, 12)]) == Some(id)
  }

  /** The two short lengths and the long one that head an entry's identity text. */
  function TextLengths(cell: seq<byte>): (nat, nat)
    requires |cell| == DIRECTORY_ENTRY_BYTES
  {
    (U16(cell, 16), U16(cell, 18))
  }

  /** An identity text judged on five successive reads, the first at `t`: the two short
      lengths, the long one, then the three identifiers. */
  ghost predicate TextNamedAt(memory: Memory, span: Span, length: nat, t: nat, id: Identity)
    requires Reachable(memory, span) && span.length == DIRECTORY_ENTRY_BYTES && length <= IDENTITY_CAPACITY
  {
    var (venue, kind) := TextLengths(Cell(memory(t), span));
    var value := U32(Cell(memory(t + 1), span), 20);
    && 8 + venue + kind + value <= length
    && Cell(memory(t + 2), span)[24..24 + venue] == id.venue
    && Cell(memory(t + 3), span)[24 + venue..24 + venue + kind] == id.kind
    && Cell(memory(t + 4), span)[24 + venue + kind..24 + venue + kind + value] == id.value
  }

  /** An entry judged on seven: its gate, the length of its text, then the text. */
  ghost predicate NamedAt(memory: Memory, span: Span, t: nat, id: Identity)
    requires Reachable(memory, span) && span.length == DIRECTORY_ENTRY_BYTES
  {
    && Gate(Cell(memory(t), span), 0).Some?
    && U32(Cell(memory(t + 1), span), 12) <= IDENTITY_CAPACITY
    && TextNamedAt(memory, span, U32(Cell(memory(t + 1), span), 12), t + 2, id)
  }

  /** The two short lengths, unpacked from one read of four bytes. */
  method ReadLengths(view: seq<byte>, span: Span) returns (venue: nat, kind: nat)
    requires span.End() <= |view| && span.length == DIRECTORY_ENTRY_BYTES
    ensures (venue, kind) == TextLengths(Cell(view, span))
  {
    var heads := FieldBytes(view, span, 16, 4);
    venue, kind := U16(heads, 0), U16(heads, 2);
  }

  /** `decode_identity` on the mapped text, read by read. */
  method MatchIdentity(memory: Memory, span: Span, length: nat, t: nat, id: Identity) returns (found: bool, end: nat)
    requires Reachable(memory, span) && span.length == DIRECTORY_ENTRY_BYTES && length <= IDENTITY_CAPACITY
    ensures found <==> TextNamedAt(memory, span, length, t, id)
    ensures t <= end && (found ==> end == t + 5)
  {
    if length < 8 {
      return false, t;
    }
    var venue, kind := ReadLengths(memory(t), span);
    var value := Field32(memory(t + 1), span, 20);
    if length - 8 < venue + kind + value {
      return false, t + 2;
    }
    var x := FieldBytes(memory(t + 2), span, 24, venue);
    var y := FieldBytes(memory(t + 3), span, 24 + venue, kind);
    var z := FieldBytes(memory(t + 4), span, 24 + venue + kind, value);
    return Identity(x, y, z) == id, t + 5;
  }

  /** One entry; a refusal may come after any of the reads. */
  method MatchEntry(memory: Memory, span: Span, t: nat, id: Identity) returns (found: bool, end: nat)
    requires Reachable(memory, span) && span.length == DIRECTORY_ENTRY_BYTES
    ensures found <==> NamedAt(memory, span, t, id)
    ensures t < end && (found ==> end == t + 7)
  {
    var gate := Field64(memory(t), span, 0);
    if gate == 0 || gate == GATE_CLAIMED {
      return false, t + 1;
    }
    var length := Field32(memory(t + 1), span, 12);
    if length > IDENTITY_CAPACITY {
      return false, t + 2;
    }
    found, end := MatchIdentity(memory, span, length, t + 2, id);
  }

  ghost predicate EntriesReachable(memory: Memory, g: Geometry) {
    forall i :: 0 <= i < g.directoryCapacity ==> Reachable(memory, SpanOf(g, Entry(i)))
  }

  ghost predicate EntryNamedAt(memory: Memory, g: Geometry, i: nat, t: nat, id: Identity)
    requires EntriesReachable(memory, g) && i < g.directoryCapacity
  {
    NamedAt(memory, SpanOf(g, Entry(i)), t, id)
  }

  /** Entries `0, 1, ...` were judged at these instants, one after the other, none naming
      the market. */
  ghost predicate Passed(memory: Memory, g: Geometry, start: nat, id: Identity, judged: seq<nat>)
    requires EntriesReachable(memory, g)
  {
    && |judged| <= g.directoryCapacity
    && (forall k :: 0 <= k < |judged| ==> start <= judged[k] && !EntryNamedAt(memory, g, k, judged[k], id))
    && (forall k, l :: 0 <= k < l < |judged| ==> judged[k] < judged[l])
  }

  /** How the answer came about: every entry before the one found was judged and passed,
      or all of them were; the slot comes from the found entry's own record. */
  ghost predicate Searched(memory: Memory, g: Geometry, start: nat, id: Identity, r: Option<(nat, nat)>,
                           judged: seq<nat>, t: nat)
    requires EntriesReachable(memory, g)
  {
    && Passed(memory, g, start, id, judged)
    && match r
       case None => |judged| == g.directoryCapacity
       case Some((index, slot)) =>
         && index == |judged| < g.directoryCapacity
         && start <= t && (forall k :: 0 <= k < |judged| ==> judged[k] < t)
         && EntryNamedAt(memory, g, index, t, id)
         && slot == U32(Cell(memory(t + 7), SpanOf(g, Entry(index))), 8)
  }

  lemma {:induction false} EntriesAreReachable(memory: Memory, g: Geometry)
    requires Sized(memory, SegmentBytes(g)) && g.eventCapacity > 0
    ensures EntriesReachable(memory, g)
  {
    forall i | 0 <= i < g.directoryCapacity
      ensures Reachable(memory, SpanOf(g, Entry(i)))
    {
      RecordIsReachable(memory, g, Entry(i));
    }
  }

  lemma {:induction false} PassedOneMore(memory: Memory, g: Geometry, start: nat, id: Identity,
                                        judged: seq<nat>, t: nat)
    requires EntriesReachable(memory, g) && Passed(memory, g, start, id, judged)
    requires |judged| < g.directoryCapacity && start <= t && !EntryNamedAt(memory, g, |judged|, t, id)
    requires forall k :: 0 <= k < |judged| ==> judged[k] < t
    ensures Passed(memory, g, start, id, judged + [t])
  {
  }

  /** One directory entry, and the slot it gives when it names the market. */
  method ReadEntry(memory: Memory, g: Geometry, i: nat, t: nat, id: Identity) returns (slot: Option<nat>, end: nat)
    requires EntriesReachable(memory, g) && i < g.directoryCapacity
    ensures slot.Some? <==> EntryNamedAt(memory, g, i, t, id)
    ensures slot.Some? ==> slot.value == U32(Cell(memory(t + 7), SpanOf(g, Entry(i))), 8)
    ensures t < end
  {
    var span := Span(HEADER_BYTES + i * DIRECTORY_ENTRY_BYTES, DIRECTORY_ENTRY_BYTES);
    assert span == SpanOf(g, Entry(i));
    var found;
    found, end := MatchEntry(memory, span, t, id);
    if found {
      slot := Some(Field32(memory(end), span, 8));
    } else {
      slot := None;
    }
  }

  /** `resolve`: the first entry that names the market when it is judged, with the slot
      its own record gives, or nothing when none does; every read stays in the record of
      the entry it is about. */
  method Resolve(memory: Memory, start: nat, g: Geometry, id: Identity) returns (r: Option<(nat, nat)>)
    requires CapacityError(g).None? && Sized(memory, SegmentBytes(g))
    ensures EntriesReachable(memory, g)
    ensures exists judged, t :: Searched(memory, g, start, id, r, judged, t)
  {
    EntriesAreReachable(memory, g);
    var now := start;
    ghost var judged: seq<nat> := [];
    for i := 0 to g.directoryCapacity
      invariant now >= start && |judged| == i && Passed(memory, g, start, id, judged)
      invariant forall k :: 0 <= k < |judged| ==> judged[k] < now
    {
      ghost var t := now;
      var slot, end := ReadEntry(memory, g, i, now, id);
      if slot.Some? {
        r := Some((i, slot.value));
        assert Searched(memory, g, start, id, r, judged, t);
        return;
      }
      PassedOneMore(memory, g, start, id, judged, t);
      judged := judged + [t];
      now := end;
    }
    assert Searched(memory, g, start, id, None, judged, start);
    return None;
  }

  /** A write-once entry: from the moment its gate is published its bytes stay. */
  ghost predicate WriteOnce(memory: Memory, span: Span)
    requires Reachable(memory, span) && span.length == DIRECTORY_ENTRY_BYTES
  {
    forall t, u :: t <= u && Gate(Cell(memory(t), span), 0).Some? ==> Cell(memory(u), span) == Cell(memory(t), span)
  }

  lemma {:induction false} BodySlice(cell: seq<byte>, length: nat, i: nat, j: nat)
    requires 16 + length <= |cell| && i <= j && 8 + j <= length
    ensures cell[16..16 + length][8..][i..j] == cell[24 + i..24 + j]
  {
    SliceOfSlice(cell, 16, 16 + length, 8, length);
    assert cell[16..16 + length][8..] == cell[24..16 + length];
    SliceOfSlice(cell, 24, 16 + length, i, j);
  }

  /** The identity text of an entry, judged on its own bytes at one instant. */
  ghost predicate TextNames(cell: seq<byte>, length: nat, id: Identity)
    requires |cell| == DIRECTORY_ENTRY_BYTES && length <= IDENTITY_CAPACITY
  {
    var (venue, kind) := TextLengths(cell);
    var value := U32(cell, 20);
    && 8 + venue + kind + value <= length
    && cell[24..24 + venue] == id.venue
    && cell[24 + venue..24 + venue + kind] == id.kind
    && cell[24 + venue + kind..24 + venue + kind + value] == id.value
  }

  lemma {:induction false} IdentityInCell(cell: seq<byte>, length: nat, id: Identity)
    requires |cell| == DIRECTORY_ENTRY_BYTES && length <= IDENTITY_CAPACITY
    ensures DecodeIdentity(cell[16..16 + length]) == Some(id) <==> TextNames(cell, length, id)
  {
    var raw := cell[16..16 + length];
    if length >= 8 {
      var (venue, kind) := TextLengths(cell);
      var value := U32(cell, 20);
      assert U16(raw, 0) == venue && U16(raw, 2) == kind && U32(raw, 4) == value;
      if 8 + venue + kind + value <= length {
        BodySlice(cell, length, 0, venue);
        BodySlice(cell, length, venue, venue + kind);
        BodySlice(cell, length, venue + kind, venue + kind + value);
      }
    }
  }

  lemma {:induction false} SteadyText(memory: Memory, span: Span, cell: seq<byte>, length: nat, t: nat, id: Identity)
    requires Reachable(memory, span) && span.length == |cell| == DIRECTORY_ENTRY_BYTES && length <= IDENTITY_CAPACITY
    requires Cell(memory(t), span) == cell && Cell(memory(t + 1), span) == cell && Cell(memory(t + 2), span) == cell
    requires Cell(memory(t + 3), span) == cell && Cell(memory(t + 4), span) == cell
    ensures TextNamedAt(memory, span, length, t, id) <==> TextNames(cell, length, id)
  {
  }

  /** Over write-once entries the seven reads judge the entry as it stood at the first of
      them, and the slot index read last is that entry's too. */
  lemma {:induction false} WriteOnceIsJudgedWhole(memory: Memory, span: Span, t: nat, id: Identity)
    requires Reachable(memory, span) && span.length == DIRECTORY_ENTRY_BYTES && WriteOnce(memory, span)
    ensures NamedAt(memory, span, t, id) <==> Names(Cell(memory(t), span), id)
    ensures NamedAt(memory, span, t, id) ==> U32(Cell(memory(t + 7), span), 8) == U32(Cell(memory(t), span), 8)
  {
    var cell := Cell(memory(t), span);
    if Gate(cell, 0).Some? {
      Stays(memory, span, t, t + 1);
      Stays(memory, span, t, t + 7);
      if U32(cell, 12) <= IDENTITY_CAPACITY {
        TextStays(memory, span, t, id);
        IdentityInCell(cell, U32(cell, 12), id);
      }
    }
  }

  lemma {:induction false} Stays(memory: Memory, span: Span, t: nat, u: nat)
    requires Reachable(memory, span) && span.length == DIRECTORY_ENTRY_BYTES && WriteOnce(memory, span)
    requires t <= u && Gate(Cell(memory(t), span), 0).Some?
    ensures Cell(memory(u), span) == Cell(memory(t), span)
  {
  }

  lemma {:induction false} TextStays(memory: Memory, span: Span, t: nat, id: Identity)
    requires Reachable(memory, span) && span.length == DIRECTORY_ENTRY_BYTES && WriteOnce(memory, span)
    requires Gate(Cell(memory(t), span), 0).Some? && U32(Cell(memory(t), span), 12) <= IDENTITY_CAPACITY
    ensures var cell := Cell(memory(t), span);
            TextNamedAt(memory, span, U32(cell, 12), t + 2, id) <==> TextNames(cell, U32(cell, 12), id)
  {
    StaysFrom(memory, span, t, t + 2);
    SteadyText(memory, span, Cell(memory(t), span), U32(Cell(memory(t), span), 12), t + 2, id);
  }

  lemma {:induction false} StaysFrom(memory: Memory, span: Span, t: nat, u: nat)
    requires Reachable(memory, span) && span.length == DIRECTORY_ENTRY_BYTES && WriteOnce(memory, span)
    requires t <= u && Gate(Cell(memory(t), span), 0).Some?
    ensures var cell := Cell(memory(t), span);
            && Cell(memory(u), span) == cell && Cell(memory(u + 1), span) == cell
            && Cell(memory(u + 2), span) == cell && Cell(memory(u + 3), span) == cell
            && Cell(memory(u + 4), span) == cell
  {
    Stays(memory, span, t, u);
    Stays(memory, span, t, u + 1);
    Stays(memory, span, t, u + 2);
    Stays(memory, span, t, u + 3);
    Stays(memory, span, t, u + 4);
  }
}
