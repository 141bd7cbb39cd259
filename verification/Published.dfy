/** The immutable published view of a book and its complementary presentation
    (src/book.rs). */
module Published {
  import opened Prelude
  import opened Decimals
  import opened Complement
  import opened Coordinates
  import opened Observation
  import opened Book
  import opened BookSteps

  datatype PublishedBook = PublishedBook(
    market: MarketRef,
    levels: seq<Level>,
    authority: AuthorityState,
    continuity: Continuity,
    revision: nat,
    provenance: Option<Provenance>,
    syncDivergences: nat)

  function LevelsAt(coordinates: seq<Coordinate>, m: Levels): seq<Level>
    requires forall c :: c in coordinates ==> c in m
  {
    seq(|coordinates|, i requires 0 <= i < |coordinates| => Level(coordinates[i], m[coordinates[i]]))
  }

  /** The map's entries, ascending by coordinate. */
  ghost function ListLevels(m: Levels): seq<Level> {
    var s := Sorted(m.Keys);
    assert forall c :: c in s ==> c in Elements(s);
    LevelsAt(s, m)
  }

  /** `OrderBook::publish`. */
  ghost function View(b: BookState): PublishedBook {
    PublishedBook(b.market, ListLevels(b.levels), b.authority, b.continuity, b.revision, b.provenance,
                  b.syncDivergences)
  }

  /** The map a level list spells out, the last mention of a coordinate winning. */
  function LevelMap(levels: seq<Level>): Levels {
    if levels == [] then map[]
    else
      var last := levels[|levels| - 1];
      LevelMap(levels[..|levels| - 1])[last.at := last.quantity]
  }

  ghost predicate AscendingLevels(levels: seq<Level>) {
    forall i, j :: 0 <= i < j < |levels| ==> Before(levels[i].at, levels[j].at)
  }

  lemma {:induction false} AscendingLevelsAreDistinct(levels: seq<Level>)
    requires AscendingLevels(levels)
    ensures DistinctLevels(levels)
  {
    forall i, j | 0 <= i < j < |levels|
      ensures levels[i].at != levels[j].at
    {
      BeforeIsStrictTotal(levels[i].at, levels[j].at, levels[j].at);
    }
  }

  lemma {:induction false} LevelMapTabulates(levels: seq<Level>)
    requires DistinctLevels(levels)
    ensures Tabulates(LevelMap(levels), levels)
    decreases |levels|
  {
    if levels != [] {
      var prefix, last := levels[..|levels| - 1], levels[|levels| - 1];
      LevelMapTabulates(prefix);
      assert levels == prefix + [last];
      DistinctOneMore(LevelMap(prefix), prefix, last);
      TabulatesOneMore(LevelMap(prefix), prefix, last);
    }
  }

  lemma {:induction false} ListLevelsTabulates(m: Levels)
    ensures AscendingLevels(ListLevels(m))
    ensures Tabulates(m, ListLevels(m))
  {
    var s := Sorted(m.Keys);
    assert forall c :: c in s <==> c in Elements(s);
    forall c | c in m
      ensures exists i :: 0 <= i < |ListLevels(m)| && ListLevels(m)[i].at == c
    {
      assert c in Elements(s);
      var i :| 0 <= i < |s| && s[i] == c;
      assert ListLevels(m)[i].at == c;
    }
  }

  lemma {:induction false} TabulatesIsUnique(a: Levels, b: Levels, levels: seq<Level>)
    requires Tabulates(a, levels) && Tabulates(b, levels)
    ensures a == b
  {
  }

  /** Publication loses nothing: the published list spells out the book's map. */
  lemma {:induction false} PublishedLevelsRestore(m: Levels)
    ensures LevelMap(ListLevels(m)) == m
  {
    ListLevelsTabulates(m);
    AscendingLevelsAreDistinct(ListLevels(m));
    LevelMapTabulates(ListLevels(m));
    TabulatesIsUnique(LevelMap(ListLevels(m)), m, ListLevels(m));
  }

  // ---------------------------------------------------------------------------------
  // The complement view
  // ---------------------------------------------------------------------------------

  function Opposite(side: Side): Side {
    if side == Bid then Ask else Bid
  }

  /** The same resting size, on the other side, at the complementary price. */
  function Mirror(level: Level): Level
    requires Complementable(level.at.price)
  {
    UnitMinusIsExact(level.at.price);
    Level(Coordinate(Opposite(level.at.side), UnitMinus(level.at.price)), level.quantity)
  }

  /** Mirrored back to front: mirroring reverses the coordinate order. */
  function MirrorAll(levels: seq<Level>): seq<Level>
    requires AllComplementable(levels)
  {
    seq(|levels|, i requires 0 <= i < |levels| => Mirror(levels[|levels| - 1 - i]))
  }

  lemma {:induction false} MirrorReverses(a: Level, b: Level)
    requires Complementable(a.at.price) && Complementable(b.at.price)
    requires Before(a.at, b.at)
    ensures Before(Mirror(b).at, Mirror(a).at)
  {
    ComplementShape(a.at.price);
    ComplementShape(b.at.price);
    ComplementReversesOrder(b.at.price, a.at.price);
  }

  lemma {:induction false} MirrorTwice(level: Level)
    requires Complementable(level.at.price)
    ensures Complementable(Mirror(level).at.price)
    ensures Mirror(Mirror(level)) == level
  {
    ComplementShape(level.at.price);
    ComplementIsInvolution(level.at.price);
    ComplementShape(Mirror(level).at.price);
  }

  lemma {:induction false} MirrorAllAscends(levels: seq<Level>)
    requires AllComplementable(levels) && AscendingLevels(levels)
    ensures AscendingLevels(MirrorAll(levels))
  {
    var mirrored := MirrorAll(levels);
    forall i, j | 0 <= i < j < |mirrored|
      ensures Before(mirrored[i].at, mirrored[j].at)
    {
      var n := |levels| - 1;
      MirrorReverses(levels[n - j], levels[n - i]);
    }
  }

  /** Complementing the view twice restores the canonical level sequence. */
  lemma {:induction false} MirrorAllTwice(levels: seq<Level>)
    requires AllComplementable(levels)
    ensures AllComplementable(MirrorAll(levels))
    ensures MirrorAll(MirrorAll(levels)) == levels
  {
    var mirrored := MirrorAll(levels);
    forall i | 0 <= i < |mirrored|
      ensures Complementable(mirrored[i].at.price)
      ensures Mirror(mirrored[i]) == levels[|levels| - 1 - i]
    {
      MirrorTwice(levels[|levels| - 1 - i]);
    }
    MirroredBack(levels, mirrored);
  }

  lemma {:induction false} MirroredBack(levels: seq<Level>, mirrored: seq<Level>)
    requires |mirrored| == |levels| && AllComplementable(mirrored)
    requires forall i :: 0 <= i < |levels| ==> Mirror(mirrored[i]) == levels[|levels| - 1 - i]
    ensures MirrorAll(mirrored) == levels
  {
    var n := |levels|;
    forall j | 0 <= j < n
      ensures MirrorAll(mirrored)[j] == levels[j]
    {
      assert MirrorAll(mirrored)[j] == Mirror(mirrored[n - 1 - j]);
    }
  }

  // ---------------------------------------------------------------------------------
  // Computing it by sorting
  // ---------------------------------------------------------------------------------

  ghost function Places(levels: seq<Level>): seq<Coordinate> {
    seq(|levels|, i requires 0 <= i < |levels| => levels[i].at)
  }

  lemma {:induction false} PlacesAreKeys(m: Levels, levels: seq<Level>)
    requires Tabulates(m, levels)
    ensures Elements(Places(levels)) == m.Keys
  {
    var s := Places(levels);
    forall c | c in m
      ensures c in s
    {
      var i :| 0 <= i < |levels| && levels[i].at == c;
      assert s[i] == c;
    }
    forall c | c in s
      ensures c in m
    {
      var i :| 0 <= i < |s| && s[i] == c;
      assert levels[i].at in m;
    }
  }

  lemma {:induction false} SameTableSameSequence(m: Levels, a: seq<Level>, b: seq<Level>)
    requires AscendingLevels(a) && AscendingLevels(b)
    requires Tabulates(m, a) && Tabulates(m, b)
    ensures a == b
  {
    PlacesAreKeys(m, a);
    PlacesAreKeys(m, b);
    AscendingIsUnique(Places(a), Places(b));
    forall i | 0 <= i < |a|
      ensures a[i] == b[i]
    {
      assert a[i].at == Places(a)[i] == Places(b)[i] == b[i].at;
    }
  }

  /** Sorts levels of distinct coordinates by coordinate. */
  method SortLevels(levels: seq<Level>) returns (sorted: seq<Level>)
    requires DistinctLevels(levels)
    ensures AscendingLevels(sorted)
    ensures Tabulates(LevelMap(levels), sorted)
  {
    var m := LevelMap(levels);
    var order := Sort(m.Keys);
    assert forall c :: c in order <==> c in Elements(order);
    sorted := LevelsAt(order, m);
    forall c | c in m
      ensures exists i :: 0 <= i < |sorted| && sorted[i].at == c
    {
      var i :| 0 <= i < |order| && order[i] == c;
      assert sorted[i].at == c;
    }
  }

  lemma {:induction false} ReversedTabulates(levels: seq<Level>, reversed: seq<Level>)
    requires DistinctLevels(levels)
    requires Reverses(levels, reversed)
    ensures Tabulates(LevelMap(levels), reversed)
  {
    LevelMapTabulates(levels);
    forall c | c in LevelMap(levels)
      ensures exists i :: 0 <= i < |reversed| && reversed[i].at == c
    {
      var i :| 0 <= i < |levels| && levels[i].at == c;
      assert reversed[|levels| - 1 - i].at == c;
    }
  }

  lemma {:induction false} MirroredAreDistinct(levels: seq<Level>, mirrored: seq<Level>)
    requires AscendingLevels(levels) && AllComplementable(levels)
    requires |mirrored| == |levels|
    requires forall i :: 0 <= i < |levels| ==> mirrored[i] == Mirror(levels[i])
    ensures DistinctLevels(mirrored)
  {
    forall i, j | 0 <= i < j < |mirrored|
      ensures mirrored[i].at != mirrored[j].at
    {
      MirrorReverses(levels[i], levels[j]);
      BeforeIsStrictTotal(mirrored[j].at, mirrored[i].at, mirrored[i].at);
    }
  }

  /** One level complemented, or the refusal of its price. */
  method ComplementLevel(level: Level) returns (r: Result<Level, DecimalError>)
    ensures r.Success? <==> Complementable(level.at.price)
    ensures r.Success? ==> r.value == Mirror(level)
    ensures r.Failure? ==> Refusal(level.at.price) == Some(r.error)
  {
    ComplementShape(level.at.price);
    var price := ComplementPrice(level.at.price);
    if price.Failure? {
      return Failure(price.error);
    }
    UnitMinusIsExact(level.at.price);
    return Success(Level(Coordinate(Opposite(level.at.side), price.value), level.quantity));
  }

  /** Sorting what was mirrored one by one gives the mirrored list back to front. */
  lemma {:induction false} SortedMirror(levels: seq<Level>, mirrored: seq<Level>, sorted: seq<Level>)
    requires AscendingLevels(levels) && AllComplementable(levels)
    requires |mirrored| == |levels|
    requires forall i :: 0 <= i < |levels| ==> mirrored[i] == Mirror(levels[i])
    requires DistinctLevels(mirrored) && AscendingLevels(sorted) && Tabulates(LevelMap(mirrored), sorted)
    ensures sorted == MirrorAll(levels)
  {
    MirrorAllAscends(levels);
    MirrorAllReverses(levels, mirrored);
    SortedReverse(mirrored, MirrorAll(levels), sorted);
  }

  ghost predicate Reverses(levels: seq<Level>, reversed: seq<Level>) {
    |reversed| == |levels| && forall i :: 0 <= i < |levels| ==> reversed[i] == levels[|levels| - 1 - i]
  }

  lemma {:induction false} MirrorAllReverses(levels: seq<Level>, mirrored: seq<Level>)
    requires AllComplementable(levels) && |mirrored| == |levels|
    requires forall i :: 0 <= i < |levels| ==> mirrored[i] == Mirror(levels[i])
    ensures Reverses(mirrored, MirrorAll(levels))
  {
  }

  lemma {:induction false} SortedReverse(levels: seq<Level>, reversed: seq<Level>, sorted: seq<Level>)
    requires DistinctLevels(levels) && Reverses(levels, reversed) && AscendingLevels(reversed)
    requires AscendingLevels(sorted) && Tabulates(LevelMap(levels), sorted)
    ensures sorted == reversed
  {
    ReversedTabulates(levels, reversed);
    SameTableSameSequence(LevelMap(levels), sorted, reversed);
  }

  /** `PublishedBook::derived_complement_levels`: mirrored one by one, then sorted.  It
      fails exactly when some price has no complement, with the first such refusal. */
  method DerivedComplementLevels(levels: seq<Level>) returns (r: Result<seq<Level>, DecimalError>)
    requires AscendingLevels(levels)
    ensures r.Success? <==> AllComplementable(levels)
    ensures r.Success? ==> r.value == MirrorAll(levels)
    ensures r.Failure? ==>
      exists i :: 0 <= i < |levels| && AllComplementable(levels[..i]) && Refusal(levels[i].at.price) == Some(r.error)
  {
    var complement: seq<Level> := [];
    for i := 0 to |levels|
      invariant |complement| == i
      invariant forall k :: 0 <= k < i ==> Complementable(levels[k].at.price) && complement[k] == Mirror(levels[k])
    {
      var level := ComplementLevel(levels[i]);
      if level.Failure? {
        assert AllComplementable(levels[..i]);
        return Failure(level.error);
      }
      complement := complement + [level.value];
    }
    MirroredAreDistinct(levels, complement);
    var sorted := SortLevels(complement);
    SortedMirror(levels, complement, sorted);
    return Success(sorted);
  }
}
