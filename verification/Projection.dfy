/** The exact projection of a candidate's content (src/dedup.rs): the bytes a publishing
    pool compares in place of a fingerprint. */
module Projection {
  import opened Decimals
  import opened DecimalText
  import opened Coordinates
  import opened Observation

  const FIELD: char := 0x1f as char
  const RECORD: char := 0x1e as char

  function SideByte(side: Side): char {
    if side == Bid then 'B' else 'A'
  }

  function OperationByte(operation: Operation): char {
    if operation.Snapshot? then 'S' else 'D'
  }

  function LevelText(level: Level): string {
    [SideByte(level.at.side)]
    + ([FIELD] + (Canonical(level.at.price) + ([FIELD] + (Canonical(level.quantity) + [RECORD]))))
  }

  function LevelsText(levels: seq<Level>): string {
    if levels == [] then "" else LevelText(levels[0]) + LevelsText(levels[1..])
  }

  function MarketText(market: MarketRef): string {
    market.venue + ([FIELD] + (market.kind + ([FIELD] + (market.key + [RECORD]))))
  }

  function Project(c: Candidate): string {
    MarketText(c.provenance.market) + ([OperationByte(c.operation), RECORD] + LevelsText(c.operation.levels))
  }

  lemma {:induction false} SixPieces(s: string, a: string, b: string, c: string, d: string, e: string, f: string)
    ensures s + a + b + c + d + e + f == s + (a + (b + (c + (d + (e + f)))))
  {
    assert s + a + b == s + (a + b);
    assert a + b + c == a + (b + c);
    assert s + (a + b) + c == s + (a + b + c);
    var abc := a + b + c;
    assert s + abc + d + e + f == s + (abc + (d + (e + f)));
    assert abc + (d + (e + f)) == a + (b + (c + (d + (e + f))));
  }

  lemma {:induction false} AppendsLevel(before: string, level: Level)
    ensures before + [SideByte(level.at.side)] + [FIELD] + Canonical(level.at.price) + [FIELD]
            + Canonical(level.quantity) + [RECORD] == before + LevelText(level)
  {
    SixPieces(before, [SideByte(level.at.side)], [FIELD], Canonical(level.at.price), [FIELD],
              Canonical(level.quantity), [RECORD]);
  }

  lemma {:induction false} NextLevel(before: string, levels: seq<Level>, i: nat)
    requires i < |levels|
    ensures before + LevelsText(levels[i..]) == before + LevelText(levels[i]) + LevelsText(levels[i + 1..])
  {
    assert levels[i..][1..] == levels[i + 1..];
    assert before + (LevelText(levels[i]) + LevelsText(levels[i + 1..]))
        == before + LevelText(levels[i]) + LevelsText(levels[i + 1..]);
  }

  lemma {:induction false} Associates(a: string, b: string, c: string)
    ensures a + b + c == a + (b + c)
  {
  }

  lemma {:induction false} AppendsMarket(m: MarketRef)
    ensures m.venue + [FIELD] + m.kind + [FIELD] + m.key + [RECORD] == MarketText(m)
  {
    SixPieces("", m.venue, [FIELD], m.kind, [FIELD], m.key, [RECORD]);
    assert "" + m.venue == m.venue;
    assert "" + MarketText(m) == MarketText(m);
  }

  lemma {:induction false} AppendsHeader(c: Candidate, bytes: string)
    requires bytes == MarketText(c.provenance.market)
    ensures bytes + [OperationByte(c.operation)] + [RECORD] + LevelsText(c.operation.levels) == Project(c)
  {
    var operation := OperationByte(c.operation);
    Associates(bytes, [operation], [RECORD]);
    assert [operation] + [RECORD] == [operation, RECORD];
    Associates(bytes, [operation, RECORD], LevelsText(c.operation.levels));
  }

  /** `candidate_projection`: appends to one buffer, level by level. */
  method CandidateProjection(c: Candidate) returns (bytes: string)
    ensures bytes == Project(c)
  {
    var market, levels := c.provenance.market, c.operation.levels;
    bytes := market.venue + [FIELD] + market.kind + [FIELD] + market.key + [RECORD];
    AppendsMarket(market);
    AppendsHeader(c, bytes);
    bytes := bytes + [OperationByte(c.operation)] + [RECORD];
    assert levels[0..] == levels;
    for i := 0 to |levels|
      invariant bytes + LevelsText(levels[i..]) == Project(c)
    {
      NextLevel(bytes, levels, i);
      AppendsLevel(bytes, levels[i]);
      bytes := bytes + [SideByte(levels[i].at.side)] + [FIELD] + Canonical(levels[i].at.price) + [FIELD]
               + Canonical(levels[i].quantity) + [RECORD];
    }
  }

  // ---------------------------------------------------------------------------------
  // Reading a projection back
  // ---------------------------------------------------------------------------------

  ghost predicate Free(s: string, mark: char) {
    forall i :: 0 <= i < |s| ==> s[i] != mark
  }

  /** Text up to the first mark, and what follows it, are determined. */
  lemma {:induction false} SplitsAtMark(a: string, b: string, x: string, y: string, mark: char)
    requires Free(a, mark) && Free(b, mark)
    requires a + ([mark] + x) == b + ([mark] + y)
    ensures a == b && x == y
  {
    var s, t := a + ([mark] + x), b + ([mark] + y);
    assert s[|a|] == mark && t[|b|] == mark;
    assert forall i :: 0 <= i < |a| ==> s[i] == a[i];
    assert forall i :: 0 <= i < |b| ==> t[i] == b[i];
    assert |a| == |b|;
    assert a == s[..|a|] && b == t[..|b|];
    assert x == s[|a| + 1..] && y == t[|b| + 1..];
  }

  lemma {:induction false} CanonicalIsFree(d: Decimal)
    ensures Free(Canonical(d), FIELD) && Free(Canonical(d), RECORD)
  {
    CanonicalCharacters(d);
  }

  lemma {:induction false} Reassociate(level: Level, rest: string)
    ensures LevelText(level) + rest
         == [SideByte(level.at.side)] + ([FIELD] + (Canonical(level.at.price)
            + ([FIELD] + (Canonical(level.quantity) + ([RECORD] + rest)))))
  {
  }

  lemma {:induction false} FirstLevelIsDetermined(a: Level, b: Level, x: string, y: string)
    requires LevelText(a) + x == LevelText(b) + y
    ensures a == b && x == y
  {
    Reassociate(a, x);
    Reassociate(b, y);
    CanonicalIsFree(a.at.price);
    CanonicalIsFree(b.at.price);
    CanonicalIsFree(a.quantity);
    CanonicalIsFree(b.quantity);
    var afterA := Canonical(a.quantity) + ([RECORD] + x);
    var afterB := Canonical(b.quantity) + ([RECORD] + y);
    SplitsAtMark([SideByte(a.at.side)], [SideByte(b.at.side)],
                 Canonical(a.at.price) + ([FIELD] + afterA), Canonical(b.at.price) + ([FIELD] + afterB), FIELD);
    SplitsAtMark(Canonical(a.at.price), Canonical(b.at.price), afterA, afterB, FIELD);
    SplitsAtMark(Canonical(a.quantity), Canonical(b.quantity), x, y, RECORD);
    CanonicalIsInjective(a.at.price, b.at.price);
    CanonicalIsInjective(a.quantity, b.quantity);
  }

  lemma {:induction false} LevelTextIsNotEmpty(levels: seq<Level>)
    ensures levels == [] <==> LevelsText(levels) == ""
  {
    if levels != [] {
      assert |LevelText(levels[0])| > 0;
    }
  }

  /** The level part determines the level list. */
  lemma {:induction false} LevelsTextIsInjective(a: seq<Level>, b: seq<Level>)
    requires LevelsText(a) == LevelsText(b)
    ensures a == b
    decreases |a|
  {
    LevelTextIsNotEmpty(a);
    LevelTextIsNotEmpty(b);
    if a != [] {
      FirstLevelIsDetermined(a[0], b[0], LevelsText(a[1..]), LevelsText(b[1..]));
      LevelsTextIsInjective(a[1..], b[1..]);
      assert a == [a[0]] + a[1..];
      assert b == [b[0]] + b[1..];
    }
  }

  // ---------------------------------------------------------------------------------
  // Reading it from the end: a level record is never a lone operation byte
  // ---------------------------------------------------------------------------------

  /** Text after the last mark, and what precedes it, are determined. */
  lemma {:induction false} SplitsAtLastMark(x: string, y: string, a: string, b: string, mark: char)
    requires Free(a, mark) && Free(b, mark)
    requires x + ([mark] + a) == y + ([mark] + b)
    ensures x == y && a == b
  {
    var s, t := x + ([mark] + a), y + ([mark] + b);
    assert s[|x|] == mark && t[|y|] == mark;
    assert forall i :: |x| < i < |s| ==> s[i] == a[i - |x| - 1];
    assert forall i :: |y| < i < |t| ==> t[i] == b[i - |y| - 1];
    assert |x| == |y|;
    assert x == s[..|x|] && y == t[..|y|];
    assert a == s[|x| + 1..] && b == t[|y| + 1..];
  }

  /** A level's record without its closing separator. */
  function LevelBody(level: Level): string {
    [SideByte(level.at.side)] + ([FIELD] + (Canonical(level.at.price) + ([FIELD] + Canonical(level.quantity))))
  }

  lemma {:induction false} LevelBodyCloses(level: Level)
    ensures LevelText(level) == LevelBody(level) + [RECORD]
    ensures Free(LevelBody(level), RECORD) && |LevelBody(level)| > 1
  {
    CanonicalIsFree(level.at.price);
    CanonicalIsFree(level.quantity);
    var price, quantity := Canonical(level.at.price), Canonical(level.quantity);
    assert price + ([FIELD] + (quantity + [RECORD])) == (price + ([FIELD] + quantity)) + [RECORD];
  }

  lemma {:induction false} LevelsTextLast(levels: seq<Level>)
    requires levels != []
    ensures LevelsText(levels) == LevelsText(levels[..|levels| - 1]) + LevelText(levels[|levels| - 1])
    decreases |levels|
  {
    var n := |levels| - 1;
    if n > 0 {
      var rest := levels[1..];
      LevelsTextLast(rest);
      assert rest[..n - 1] == levels[..n][1..];
      Associates(LevelText(levels[0]), LevelsText(rest[..n - 1]), LevelText(levels[n]));
    }
  }

  /** A projection as it grows: what precedes the operation, the operation, the levels. */
  function Records(market: string, operation: char, levels: seq<Level>): string {
    market + ([operation, RECORD] + LevelsText(levels))
  }

  /** The text before the separator that closes a projection. */
  function Unclosed(market: string, operation: char, levels: seq<Level>): string {
    if levels == [] then market + [operation]
    else Records(market, operation, levels[..|levels| - 1]) + LevelBody(levels[|levels| - 1])
  }

  lemma {:induction false} RecordsClose(market: string, operation: char, levels: seq<Level>)
    ensures Records(market, operation, levels) == Unclosed(market, operation, levels) + [RECORD]
  {
    if levels == [] {
      assert [operation, RECORD] + "" == [operation] + [RECORD];
      Associates(market, [operation], [RECORD]);
    } else {
      var earlier, last := levels[..|levels| - 1], levels[|levels| - 1];
      LevelsTextLast(levels);
      LevelBodyCloses(last);
      Associates([operation, RECORD], LevelsText(earlier), LevelText(last));
      Associates(market, [operation, RECORD] + LevelsText(earlier), LevelText(last));
      Associates(Records(market, operation, earlier), LevelBody(last), [RECORD]);
    }
  }

  /** The last record of a projection, and everything before the separator in front of it. */
  function LastBody(operation: char, levels: seq<Level>): string {
    if levels == [] then [operation] else LevelBody(levels[|levels| - 1])
  }

  function BeforeLast(market: string, operation: char, levels: seq<Level>): string {
    if levels == [] then market else Unclosed(market, operation, levels[..|levels| - 1])
  }

  lemma {:induction false} LastRecord(market: string, operation: char, levels: seq<Level>)
    ensures Records(market + [RECORD], operation, levels)
         == (BeforeLast(if levels == [] then market else market + [RECORD], operation, levels)
             + ([RECORD] + LastBody(operation, levels))) + [RECORD]
  {
    RecordsClose(market + [RECORD], operation, levels);
    if levels == [] {
      Associates(market, [RECORD], [operation]);
    } else {
      var earlier, last := levels[..|levels| - 1], levels[|levels| - 1];
      RecordsClose(market + [RECORD], operation, earlier);
      Associates(Unclosed(market + [RECORD], operation, earlier), [RECORD], LevelBody(last));
    }
  }

  lemma {:induction false} LastBodyIsFree(operation: char, levels: seq<Level>)
    requires operation != RECORD
    ensures Free(LastBody(operation, levels), RECORD)
    ensures |LastBody(operation, levels)| == 1 <==> levels == []
  {
    if levels != [] {
      LevelBodyCloses(levels[|levels| - 1]);
    }
  }

  lemma {:induction false} SameWithoutLast(x: string, y: string, last: char)
    requires x + [last] == y + [last]
    ensures x == y
  {
    assert x == (x + [last])[..|x|] && y == (y + [last])[..|y|];
  }

  lemma {:induction false} LevelBodyIsInjective(a: Level, b: Level)
    requires LevelBody(a) == LevelBody(b)
    ensures a == b
  {
    LevelBodyCloses(a);
    LevelBodyCloses(b);
    FirstLevelIsDetermined(a, b, "", "");
  }

  lemma {:induction false} LastRecordIsDetermined(p: string, o: char, a: seq<Level>, q: string, u: char, b: seq<Level>)
    requires o != RECORD && u != RECORD
    requires Records(p + [RECORD], o, a) == Records(q + [RECORD], u, b)
    ensures LastBody(o, a) == LastBody(u, b) && (a == [] <==> b == [])
    ensures BeforeLast(if a == [] then p else p + [RECORD], o, a)
         == BeforeLast(if b == [] then q else q + [RECORD], u, b)
  {
    LastRecord(p, o, a);
    LastRecord(q, u, b);
    LastBodyIsFree(o, a);
    LastBodyIsFree(u, b);
    var x := BeforeLast(if a == [] then p else p + [RECORD], o, a);
    var y := BeforeLast(if b == [] then q else q + [RECORD], u, b);
    SameWithoutLast(x + ([RECORD] + LastBody(o, a)), y + ([RECORD] + LastBody(u, b)), RECORD);
    SplitsAtLastMark(x, y, LastBody(o, a), LastBody(u, b), RECORD);
  }

  lemma {:induction false} LastLevelIsDetermined(p: string, o: char, a: seq<Level>, q: string, u: char, b: seq<Level>)
    requires a != [] && b != []
    requires LastBody(o, a) == LastBody(u, b)
    requires BeforeLast(p, o, a) == BeforeLast(q, u, b)
    ensures a[|a| - 1] == b[|b| - 1]
    ensures Records(p, o, a[..|a| - 1]) == Records(q, u, b[..|b| - 1])
  {
    LevelBodyIsInjective(a[|a| - 1], b[|b| - 1]);
    RecordsClose(p, o, a[..|a| - 1]);
    RecordsClose(q, u, b[..|b| - 1]);
  }

  lemma {:induction false} SplitLast(levels: seq<Level>)
    requires levels != []
    ensures levels == levels[..|levels| - 1] + [levels[|levels| - 1]]
  {
  }

  /** Whatever precedes the operation record, both it and the records are determined. */
  lemma {:induction false} RecordsAreDetermined(p: string, o: char, a: seq<Level>, q: string, u: char, b: seq<Level>)
    requires o != RECORD && u != RECORD
    requires Records(p + [RECORD], o, a) == Records(q + [RECORD], u, b)
    ensures p == q && o == u && a == b
    decreases |a|
  {
    LastRecordIsDetermined(p, o, a, q, u, b);
    if a == [] {
      assert [o][0] == [u][0];
    } else {
      LastLevelIsDetermined(p + [RECORD], o, a, q + [RECORD], u, b);
      RecordsAreDetermined(p, o, a[..|a| - 1], q, u, b[..|b| - 1]);
      SplitLast(a);
      SplitLast(b);
    }
  }

  /** A market's header without its closing separator. */
  function MarketBody(m: MarketRef): string {
    m.venue + ([FIELD] + (m.kind + ([FIELD] + m.key)))
  }

  lemma {:induction false} MarketCloses(m: MarketRef)
    ensures MarketText(m) == MarketBody(m) + [RECORD]
  {
    assert m.kind + ([FIELD] + (m.key + [RECORD])) == (m.kind + ([FIELD] + m.key)) + [RECORD];
  }

  /** Projections are equal exactly when the market headers are, the kind of operation is
      and the levels are, value by value and in order: for all candidates whatever. */
  lemma {:induction false} ProjectionDetermines(c: Candidate, d: Candidate)
    ensures Project(c) == Project(d) <==>
      MarketText(c.provenance.market) == MarketText(d.provenance.market) && c.operation == d.operation
  {
    var m, n := c.provenance.market, d.provenance.market;
    MarketCloses(m);
    MarketCloses(n);
    if Project(c) == Project(d) {
      RecordsAreDetermined(MarketBody(m), OperationByte(c.operation), c.operation.levels,
                           MarketBody(n), OperationByte(d.operation), d.operation.levels);
    }
  }

  /** For one market, projections are equal exactly when the reported contents are. */
  lemma {:induction false} ProjectionIsExact(c: Candidate, d: Candidate)
    requires c.provenance.market == d.provenance.market
    ensures Project(c) == Project(d) <==> c.operation == d.operation
  {
    ProjectionDetermines(c, d);
  }

  // ---------------------------------------------------------------------------------
  // Across markets
  // ---------------------------------------------------------------------------------

  /** Between markets whose venue and kind hold no field separator the header decides. */
  lemma {:induction false} HeaderIsInjective(m: MarketRef, n: MarketRef)
    requires Free(m.venue, FIELD) && Free(m.kind, FIELD) && Free(n.venue, FIELD) && Free(n.kind, FIELD)
    ensures MarketText(m) == MarketText(n) <==> m == n
  {
    if MarketText(m) == MarketText(n) {
      SplitsAtMark(m.venue, n.venue, m.kind + ([FIELD] + (m.key + [RECORD])),
                   n.kind + ([FIELD] + (n.key + [RECORD])), FIELD);
      SplitsAtMark(m.kind, n.kind, m.key + [RECORD], n.key + [RECORD], FIELD);
      SameWithoutLast(m.key, n.key, RECORD);
    }
  }

  /** So there projections also separate markets, whatever their keys contain. */
  lemma {:induction false} ProjectionSeparatesMarkets(c: Candidate, d: Candidate)
    requires Free(c.provenance.market.venue, FIELD) && Free(c.provenance.market.kind, FIELD)
    requires Free(d.provenance.market.venue, FIELD) && Free(d.provenance.market.kind, FIELD)
    ensures Project(c) == Project(d) <==> c.provenance.market == d.provenance.market && c.operation == d.operation
  {
    ProjectionDetermines(c, d);
    HeaderIsInjective(c.provenance.market, d.provenance.market);
  }

  /** No field separator anywhere in the market's identifiers. */
  ghost predicate Unambiguous(m: MarketRef) {
    Free(m.venue, FIELD) && Free(m.kind, FIELD) && Free(m.key, FIELD)
  }

  /** Where the two separators of a header stand. */
  lemma {:induction false} HeaderMarks(m: MarketRef)
    ensures var text, v, k := MarketText(m), |m.venue|, |m.venue| + 1 + |m.kind|;
            && v < k < |text| - 1
            && text[v] == FIELD && text[k] == FIELD
            && text[..v] == m.venue && text[v + 1..k] == m.kind && text[k + 1..|text| - 1] == m.key
            && (Unambiguous(m) ==> forall i :: 0 <= i < |text| && i != v && i != k ==> text[i] != FIELD)
  {
    var text, v, k := MarketText(m), |m.venue|, |m.venue| + 1 + |m.kind|;
    assert text == m.venue + [FIELD] + m.kind + [FIELD] + m.key + [RECORD] by {
      AppendsMarket(m);
    }
    forall i | Unambiguous(m) && 0 <= i < |text| && i != v && i != k
      ensures text[i] != FIELD
    {
      assert i < v ==> text[i] == m.venue[i];
      assert v < i < k ==> text[i] == m.kind[i - v - 1];
      assert k < i < |text| - 1 ==> text[i] == m.key[i - k - 1];
    }
  }

  lemma {:induction false} UnambiguousIsUnique(m: MarketRef, n: MarketRef)
    requires Unambiguous(m) && MarketText(n) == MarketText(m)
    ensures n == m
  {
    HeaderMarks(m);
    HeaderMarks(n);
  }

  // ---- the markets that can be built ----

  const MAX_VENUE_BYTES := 128
  const MAX_KIND_BYTES := 128
  const MAX_NATIVE_BYTES := 1024

  /** The identifiers that exist: neither empty nor over their limit. */
  ghost predicate Constructible(m: MarketRef) {
    && 0 < |m.venue| <= MAX_VENUE_BYTES
    && 0 < |m.kind| <= MAX_KIND_BYTES
    && 0 < |m.key| <= MAX_NATIVE_BYTES
  }

  /** Field separators at `i` and `j` cut the header into three admissible identifiers. */
  ghost predicate Cuts(text: string, i: nat, j: nat) {
    && i < j < |text| - 1
    && text[i] == FIELD && text[j] == FIELD
    && 0 < i <= MAX_VENUE_BYTES
    && 0 < j - i - 1 <= MAX_KIND_BYTES
    && 0 < |text| - j - 2 <= MAX_NATIVE_BYTES
  }

  function CutAt(text: string, i: nat, j: nat): MarketRef
    requires i < j < |text| - 1
  {
    MarketRef(text[..i], text[i + 1..j], text[j + 1..|text| - 1])
  }

  /** The header can be cut in one place only, where the market's own identifiers end. */
  ghost predicate OneCut(m: MarketRef) {
    forall i, j :: Cuts(MarketText(m), i, j) ==> i == |m.venue| && j == |m.venue| + 1 + |m.kind|
  }

  lemma {:induction false} CutRejoins(text: string, i: nat, j: nat)
    requires i < j < |text| - 1 && text[i] == FIELD && text[j] == FIELD && text[|text| - 1] == RECORD
    ensures MarketText(CutAt(text, i, j)) == text
  {
    var m := CutAt(text, i, j);
    AppendsMarket(m);
    assert text == text[..i] + [FIELD] + text[i + 1..j] + [FIELD] + text[j + 1..|text| - 1] + [RECORD];
  }

  lemma {:induction false} OwnCut(m: MarketRef)
    requires Constructible(m)
    ensures Cuts(MarketText(m), |m.venue|, |m.venue| + 1 + |m.kind|)
    ensures CutAt(MarketText(m), |m.venue|, |m.venue| + 1 + |m.kind|) == m
  {
    HeaderMarks(m);
    MarketCloses(m);
  }

  /** Any other admissible cut of its header is another market that can be built. */
  lemma {:induction false} OtherCutIsATwin(m: MarketRef, i: nat, j: nat)
    requires Cuts(MarketText(m), i, j)
    requires i != |m.venue| || j != |m.venue| + 1 + |m.kind|
    ensures var n := CutAt(MarketText(m), i, j);
            Constructible(n) && MarketText(n) == MarketText(m) && n != m
  {
    MarketCloses(m);
    CutRejoins(MarketText(m), i, j);
  }

  /** Among the markets that can be built, a header belongs to one only exactly when no
      other pair of field separators cuts it into admissible identifiers. */
  lemma {:induction false} HeaderIsUnique(m: MarketRef)
    requires Constructible(m)
    ensures (forall n :: Constructible(n) && MarketText(n) == MarketText(m) ==> n == m) <==> OneCut(m)
  {
    if OneCut(m) {
      forall n | Constructible(n) && MarketText(n) == MarketText(m)
        ensures n == m
      {
        OwnCut(n);
        OwnCut(m);
      }
    } else {
      var i, j :| Cuts(MarketText(m), i, j) && !(i == |m.venue| && j == |m.venue| + 1 + |m.kind|);
      OtherCutIsATwin(m, i, j);
    }
  }

  /** So a candidate's market can be recovered from its projection under the same
      condition. */
  lemma {:induction false} MarketIsRecoverable(c: Candidate)
    requires Constructible(c.provenance.market)
    ensures OneCut(c.provenance.market) <==>
      (forall d: Candidate :: Constructible(d.provenance.market) && Project(d) == Project(c) ==>
         d.provenance.market == c.provenance.market)
  {
    var m := c.provenance.market;
    HeaderIsUnique(m);
    if OneCut(m) {
      forall d: Candidate | Constructible(d.provenance.market) && Project(d) == Project(c)
        ensures d.provenance.market == m
      {
        ProjectionDetermines(d, c);
      }
    } else {
      var n :| Constructible(n) && MarketText(n) == MarketText(m) && n != m;
      var d := c.(provenance := c.provenance.(market := n));
      ProjectionDetermines(d, c);
      assert Project(d) == Project(c) && d.provenance.market != m;
    }
  }

  /** Identifiers without a field separator always meet it, against any market whatever. */
  lemma {:induction false} UnambiguousHasOneCut(m: MarketRef)
    requires Unambiguous(m)
    ensures OneCut(m)
  {
    HeaderMarks(m);
  }

  /** They are not the only ones: a venue that is a lone separator leaves one cut, since
      the identifier before it would be empty. */
  lemma {:induction false} SeparatorCanBeHarmless()
    ensures var m := MarketRef([FIELD], "k", "x");
            Constructible(m) && !Unambiguous(m) && OneCut(m)
  {
    var m := MarketRef([FIELD], "k", "x");
    assert m.venue[0] == FIELD;
    assert MarketText(m) == [FIELD, FIELD, 'k', FIELD, 'x', RECORD];
  }

  /** Identifiers are only length-checked, so it does not hold for all of them: these two
      distinct markets project alike. */
  lemma {:induction false} AmbiguousMarketsCollide(p: Provenance, operation: Operation)
    ensures var c := Candidate(p.(market := MarketRef(['a', FIELD, 'b'], "c", "d")), operation);
            var d := Candidate(p.(market := MarketRef("a", ['b', FIELD, 'c'], "d")), operation);
            && Constructible(c.provenance.market) && Constructible(d.provenance.market)
            && c.provenance.market != d.provenance.market && Project(c) == Project(d)
  {
    var m, n := MarketRef(['a', FIELD, 'b'], "c", "d"), MarketRef("a", ['b', FIELD, 'c'], "d");
    assert m.venue[1] == FIELD;
    assert MarketText(m) == ['a', FIELD, 'b', FIELD, 'c', FIELD, 'd', RECORD];
    assert MarketText(n) == ['a', FIELD, 'b', FIELD, 'c', FIELD, 'd', RECORD];
    assert |m.venue| != |n.venue|;
  }

  lemma {:induction false} SampleNumbers()
    ensures Canonical(Decimal(5, 1)) == "0.5" && Canonical(Decimal(2, 0)) == "2"
  {
  }

  function SampleLevel(side: Side): Level {
    Level(Coordinate(side, Decimal(5, 1)), Decimal(2, 0))
  }

  lemma {:induction false} SampleRecord(side: Side)
    ensures LevelsText([SampleLevel(side)])
         == [if side == Bid then 'B' else 'A', 0x1f as char, '0', '.', '5', 0x1f as char, '2', 0x1e as char]
  {
    SampleNumbers();
    var level := SampleLevel(side);
    assert [level][1..] == [];
    assert LevelsText([level]) == LevelText(level);
  }

  lemma {:induction false} SampleHeader()
    ensures MarketText(MarketRef("v", "k", "x")) == ['v', 0x1f as char, 'k', 0x1f as char, 'x', 0x1e as char]
  {
  }

  /** The bytes themselves, on one candidate: a quantity of 2 at 0.5. */
  lemma {:induction false} ProjectionSpelledOut(p: Provenance, side: Side, snapshot: bool)
    requires p.market == MarketRef("v", "k", "x")
    ensures var levels := [SampleLevel(side)];
            Project(Candidate(p, if snapshot then Snapshot(levels) else SourceDelta(levels)))
            == ['v', 0x1f as char, 'k', 0x1f as char, 'x', 0x1e as char]
               + ([if snapshot then 'S' else 'D', 0x1e as char]
                  + [if side == Bid then 'B' else 'A', 0x1f as char, '0', '.', '5', 0x1f as char, '2', 0x1e as char])
  {
    SampleHeader();
    SampleRecord(side);
  }
}
