/** What one accepted input means: admission, emission, and agreement between the
    mutations a commit puts on the stream and the level map it leaves behind. */
module BookSteps {
  import opened Prelude
  import opened Complement
  import opened Coordinates
  import opened Observation
  import opened Book

  // ---------------------------------------------------------------------------------
  // Admission
  // ---------------------------------------------------------------------------------

  ghost predicate DistinctLevels(levels: seq<Level>) {
    forall i, j :: 0 <= i < j < |levels| ==> levels[i].at != levels[j].at
  }

  ghost predicate AllComplementable(levels: seq<Level>) {
    forall i :: 0 <= i < |levels| ==> Complementable(levels[i].at.price)
  }

  ghost predicate Tabulates(m: Levels, levels: seq<Level>) {
    && (forall i :: 0 <= i < |levels| ==> levels[i].at in m && m[levels[i].at] == levels[i].quantity)
    && (forall c :: c in m ==> exists i :: 0 <= i < |levels| && levels[i].at == c)
  }

  lemma {:induction false} RefusalIsComplement(p: Price)
    ensures Refusal(p) == (if ComplementPrice(p).Success? then None else Some(ComplementPrice(p).error))
    ensures Refusal(p) == None <==> Complementable(p)
  {
    ComplementShape(p);
  }

  lemma {:induction false} TabulatesOneMore(m: Levels, levels: seq<Level>, last: Level)
    requires Tabulates(m, levels) && last.at !in m
    ensures Tabulates(m[last.at := last.quantity], levels + [last])
  {
    var all := levels + [last];
    assert all[|levels|] == last;
    forall c | c in m
      ensures exists i :: 0 <= i < |all| && all[i].at == c
    {
      var i :| 0 <= i < |levels| && levels[i].at == c;
      assert all[i].at == c;
    }
  }

  lemma {:induction false} DistinctOneMore(m: Levels, levels: seq<Level>, last: Level)
    requires Tabulates(m, levels)
    ensures DistinctLevels(levels + [last]) <==> DistinctLevels(levels) && last.at !in m
  {
    var all := levels + [last];
    assert all[|levels|] == last;
    assert forall i :: 0 <= i < |levels| ==> all[i] == levels[i];
    if last.at in m {
      var i :| 0 <= i < |levels| && levels[i].at == last.at;
      assert all[i].at == all[|levels|].at;
    }
  }

  /** A level list is admitted exactly when every price has a complement and no
      coordinate repeats, and then the map is the list. */
  lemma {:induction false} AdmitMeaning(levels: seq<Level>)
    ensures Admit(levels).Success? <==> AllComplementable(levels) && DistinctLevels(levels)
    ensures Admit(levels).Success? ==> Tabulates(Admit(levels).value, levels)
    decreases |levels|
  {
    if levels != [] {
      var prefix, last := levels[..|levels| - 1], levels[|levels| - 1];
      AdmitMeaning(prefix);
      assert levels == prefix + [last];
      assert AllComplementable(levels) <==> AllComplementable(prefix) && Complementable(last.at.price);
      if Admit(prefix).Success? {
        DistinctOneMore(Admit(prefix).value, prefix, last);
        if last.at !in Admit(prefix).value {
          TabulatesOneMore(Admit(prefix).value, prefix, last);
        }
      }
    }
  }

  /** A refused prefix decides the whole list. */
  lemma {:induction false} AdmitFailsEarly(levels: seq<Level>, i: nat)
    requires i <= |levels|
    requires Admit(levels[..i]).Failure?
    ensures Admit(levels) == Admit(levels[..i])
    decreases |levels|
  {
    if i < |levels| {
      var prefix := levels[..|levels| - 1];
      assert prefix[..i] == levels[..i];
      AdmitFailsEarly(prefix, i);
    } else {
      assert levels[..i] == levels;
    }
  }

  // ---------------------------------------------------------------------------------
  // Emission
  // ---------------------------------------------------------------------------------

  function Changed(changes: seq<Change>): seq<Change> {
    if changes == [] then []
    else
      var rest, last := Changed(changes[..|changes| - 1]), changes[|changes| - 1];
      if last.before == last.after then rest else rest + [last]
  }

  function RecordOf(change: Change, p: Provenance, cursor: Cursor): Record {
    Record(cursor, Mutation(p, LevelAt(change.at, change.before), LevelAt(change.at, change.after)))
  }

  function RecordsOf(changes: seq<Change>, p: Provenance, epoch: nat, first: nat): seq<Record> {
    seq(|changes|, i requires 0 <= i < |changes| => RecordOf(changes[i], p, Cursor(epoch, first + i)))
  }

  /** Stamps the book builds for a candidate: admitted provenance, and for a reported
      difference the venue's own labelling. */
  ghost predicate IsStamp(s: Stamp) {
    && NewProvenance(s.source) == Success(s.source)
    && s.kind != LatestState
    && (s.kind == SourceReportedDiff ==> s.source.origin == SourceReported)
  }

  ghost function StampProvenance(s: Stamp): Provenance
    requires IsStamp(s)
  {
    RebaseIsTotal(s.source, s.revision, s.epoch, s.kind);
    RebaseProvenance(s.source, s.revision, s.epoch, s.kind).value
  }

  /** Neither the provenance nor the mutation constructor can refuse at the book's own
      call sites; only the position counter can. */
  lemma {:induction false} EmitOneIsTotal(change: Change, s: Stamp, emitted: nat)
    requires IsStamp(s) && change.before != change.after
    ensures EmitOne(change, s, emitted)
         == if s.first + emitted > U64_MAX then Failure(CounterOverflow)
            else Success(RecordOf(change, StampProvenance(s), Cursor(s.epoch, s.first + emitted)))
  {
    RebaseIsTotal(s.source, s.revision, s.epoch, s.kind);
  }

  /** Emission in closed form: the changed coordinates in list order at consecutive
      positions, or a counter overflow. */
  lemma {:induction false} EmitMeaning(changes: seq<Change>, s: Stamp)
    requires IsStamp(s) && s.first <= U64_MAX
    ensures Emit(changes, s)
         == if s.first + |Changed(changes)| > U64_MAX + 1 then Failure(CounterOverflow)
            else Success(RecordsOf(Changed(changes), StampProvenance(s), s.epoch, s.first))
    decreases |changes|
  {
    if changes == [] {
      assert RecordsOf([], StampProvenance(s), s.epoch, s.first) == [];
    } else {
      var prefix, last := changes[..|changes| - 1], changes[|changes| - 1];
      EmitMeaning(prefix, s);
      if last.before != last.after && Emit(prefix, s).Success? {
        EmitOneIsTotal(last, s, |Changed(prefix)|);
        assert RecordsOf(Changed(changes), StampProvenance(s), s.epoch, s.first)
            == RecordsOf(Changed(prefix), StampProvenance(s), s.epoch, s.first)
               + [RecordOf(last, StampProvenance(s), Cursor(s.epoch, s.first + |Changed(prefix)|))];
      }
    }
  }

  lemma {:induction false} EmitFailsEarly(changes: seq<Change>, s: Stamp, i: nat)
    requires i <= |changes|
    requires Emit(changes[..i], s).Failure?
    ensures Emit(changes, s) == Emit(changes[..i], s)
    decreases |changes|
  {
    if i < |changes| {
      var prefix := changes[..|changes| - 1];
      assert prefix[..i] == changes[..i];
      EmitFailsEarly(prefix, s, i);
    } else {
      assert changes[..i] == changes;
    }
  }

  /** `kept` lists, at the increasing positions `index`, exactly the changed entries. */
  ghost predicate Picks(index: seq<nat>, changes: seq<Change>, kept: seq<Change>) {
    && |index| == |kept|
    && (forall k :: 0 <= k < |index| ==> index[k] < |changes| && changes[index[k]] == kept[k])
    && (forall k, l :: 0 <= k < l < |index| ==> index[k] < index[l])
    && (forall k :: 0 <= k < |kept| ==> kept[k].before != kept[k].after)
    && (forall i :: 0 <= i < |changes| && changes[i].before != changes[i].after ==> i in index)
  }

  lemma {:induction false} PicksOneMore(index: seq<nat>, changes: seq<Change>, kept: seq<Change>, last: Change)
    requires Picks(index, changes, kept)
    ensures last.before == last.after ==> Picks(index, changes + [last], kept)
    ensures last.before != last.after ==> Picks(index + [|changes|], changes + [last], kept + [last])
  {
    var all := changes + [last];
    assert forall i :: 0 <= i < |changes| ==> all[i] == changes[i];
    if last.before != last.after {
      var longer := index + [|changes|];
      assert forall i :: i in index ==> i in longer;
      assert longer[|index|] == |changes|;
    }
  }

  /** The filter keeps exactly the changed entries, in their order. */
  lemma {:induction false} ChangedIsSubsequence(changes: seq<Change>) returns (index: seq<nat>)
    ensures Picks(index, changes, Changed(changes))
    decreases |changes|
  {
    if changes == [] {
      index := [];
    } else {
      var earlier, last := changes[..|changes| - 1], changes[|changes| - 1];
      index := ChangedIsSubsequence(earlier);
      PicksOneMore(index, earlier, Changed(earlier), last);
      assert changes == earlier + [last];
      if last.before != last.after {
        index := index + [|earlier|];
      }
    }
  }

  // ---------------------------------------------------------------------------------
  // Applying changes to a map
  // ---------------------------------------------------------------------------------

  function ApplyChanges(m: Levels, changes: seq<Change>): Levels {
    if changes == [] then m
    else
      var last := changes[|changes| - 1];
      Put(ApplyChanges(m, changes[..|changes| - 1]), last.at, last.after)
  }

  ghost predicate DistinctChanges(changes: seq<Change>) {
    forall i, j :: 0 <= i < j < |changes| ==> changes[i].at != changes[j].at
  }

  /** Every change names the value the map really holds. */
  ghost predicate Truthful(m: Levels, changes: seq<Change>) {
    forall i :: 0 <= i < |changes| ==> changes[i].before == Get(m, changes[i].at)
  }

  lemma {:induction false} Untouched(m: Levels, changes: seq<Change>, c: Coordinate)
    requires forall i :: 0 <= i < |changes| ==> changes[i].at != c
    ensures Get(ApplyChanges(m, changes), c) == Get(m, c)
    decreases |changes|
  {
    if changes != [] {
      Untouched(m, changes[..|changes| - 1], c);
    }
  }

  lemma {:induction false} Touched(m: Levels, changes: seq<Change>, k: nat)
    requires DistinctChanges(changes) && k < |changes|
    ensures Get(ApplyChanges(m, changes), changes[k].at) == changes[k].after
    decreases |changes|
  {
    var n := |changes| - 1;
    if k < n {
      Touched(m, changes[..n], k);
    }
  }

  lemma {:induction false} SameMap(a: Levels, b: Levels)
    requires forall c :: Get(a, c) == Get(b, c)
    ensures a == b
  {
    assert forall c :: c in a ==> Get(a, c) == Get(b, c);
    assert forall c :: c in b ==> Get(a, c) == Get(b, c);
  }

  lemma {:induction false} PutHeld(m: Levels, c: Coordinate)
    ensures Put(m, c, Get(m, c)) == m
  {
  }

  /** Leaving out the entries that change nothing leaves the result alone. */
  lemma {:induction false} SkipUnchanged(m: Levels, changes: seq<Change>)
    requires DistinctChanges(changes) && Truthful(m, changes)
    ensures ApplyChanges(m, Changed(changes)) == ApplyChanges(m, changes)
    decreases |changes|
  {
    if changes != [] {
      var prefix, last := changes[..|changes| - 1], changes[|changes| - 1];
      SkipUnchanged(m, prefix);
      if last.before == last.after {
        Untouched(m, prefix, last.at);
        PutHeld(ApplyChanges(m, prefix), last.at);
      } else {
        assert Changed(changes)[..|Changed(changes)| - 1] == Changed(prefix);
      }
    }
  }

  // ---------------------------------------------------------------------------------
  // Replaying emitted records
  // ---------------------------------------------------------------------------------

  lemma {:induction false} ReplayAppliesChanges(
      m: Levels, changes: seq<Change>, p: Provenance, epoch: nat, first: nat, revision: nat)
    requires forall i :: 0 <= i < |changes| ==> changes[i].before != changes[i].after
    ensures Replay(m, Deliveries(revision, RecordsOf(changes, p, epoch, first))) == ApplyChanges(m, changes)
    decreases |changes|
  {
    if changes != [] {
      var prefix := changes[..|changes| - 1];
      ReplayAppliesChanges(m, prefix, p, epoch, first, revision);
      var d := Deliveries(revision, RecordsOf(changes, p, epoch, first));
      assert d[..|d| - 1] == Deliveries(revision, RecordsOf(prefix, p, epoch, first));
    }
  }
}
