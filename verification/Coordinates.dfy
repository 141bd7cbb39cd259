/** Book coordinates `(side, price)`, their order, and ascending enumeration of a set of
    them: what a `BTreeMap<(Side, Price), _>` iterates in (src/book.rs, src/observation.rs). */
module Coordinates {
  import opened Decimals
  import opened Complement

  datatype Side = Bid | Ask

  datatype Coordinate = Coordinate(side: Side, price: Price)

  /** The derived order: every bid before every ask, each side ascending by price. */
  predicate Before(a: Coordinate, b: Coordinate) {
    (a.side == Bid && b.side == Ask) || (a.side == b.side && Compare(a.price, b.price) == Less)
  }

  /** Coordinates are strictly and totally ordered, because prices are normal. */
  lemma {:induction false} BeforeIsStrictTotal(a: Coordinate, b: Coordinate, c: Coordinate)
    ensures !Before(a, a)
    ensures a == b || Before(a, b) || Before(b, a)
    ensures !(Before(a, b) && Before(b, a))
    ensures Before(a, b) && Before(b, c) ==> Before(a, c)
  {
    CompareIsTotalOrder(a.price, b.price, c.price);
    EqualMeansIdentical(a.price, b.price);
  }

  /** It is the order of the sides, then of the exact prices. */
  lemma {:induction false} BeforeByValue(a: Coordinate, b: Coordinate)
    ensures Before(a, b) <==>
      || (a.side == Bid && b.side == Ask)
      || (a.side == b.side && Value(a.price) < Value(b.price))
  {
    CompareExact(a.price, b.price);
  }

  ghost predicate Ascending(s: seq<Coordinate>) {
    forall i, j :: 0 <= i < j < |s| ==> Before(s[i], s[j])
  }

  ghost function Elements<T>(s: seq<T>): set<T> {
    set x | x in s
  }

  // ---------------------------------------------------------------------------------
  // One set has one ascending enumeration
  // ---------------------------------------------------------------------------------

  lemma {:induction false} FirstIsLeast(s: seq<Coordinate>, c: Coordinate)
    requires Ascending(s) && c in s
    ensures c == s[0] || Before(s[0], c)
  {
    var i :| 0 <= i < |s| && s[i] == c;
  }

  lemma {:induction false} AscendingTail(s: seq<Coordinate>)
    requires Ascending(s) && s != []
    ensures Ascending(s[1..])
    ensures Elements(s[1..]) == Elements(s) - {s[0]}
  {
    forall c | c in s[1..]
      ensures c in s && c != s[0]
    {
      var i :| 0 <= i < |s[1..]| && s[1..][i] == c;
      assert c == s[i + 1] && Before(s[0], s[i + 1]);
      BeforeIsStrictTotal(s[0], c, c);
    }
    forall c | c in s && c != s[0]
      ensures c in s[1..]
    {
      var i :| 0 <= i < |s| && s[i] == c;
      assert s[1..][i - 1] == c;
    }
  }

  lemma {:induction false} EmptyHasNoElements(s: seq<Coordinate>)
    ensures s == [] <==> Elements(s) == {}
  {
    if s != [] {
      assert s[0] in Elements(s);
    }
  }

  lemma {:induction false} AscendingIsUnique(s: seq<Coordinate>, t: seq<Coordinate>)
    requires Ascending(s) && Ascending(t)
    requires Elements(s) == Elements(t)
    ensures s == t
    decreases |s|
  {
    if s == [] {
      EmptyHasNoElements(t);
    } else {
      assert s[0] in Elements(t);
      assert t[0] in Elements(s);
      FirstIsLeast(t, s[0]);
      FirstIsLeast(s, t[0]);
      BeforeIsStrictTotal(s[0], t[0], t[0]);
      AscendingTail(s);
      AscendingTail(t);
      AscendingIsUnique(s[1..], t[1..]);
      assert s == [s[0]] + s[1..];
      assert t == [t[0]] + t[1..];
    }
  }

  // ---------------------------------------------------------------------------------
  // Building it
  // ---------------------------------------------------------------------------------

  function Insert(s: seq<Coordinate>, c: Coordinate): seq<Coordinate> {
    if s == [] || Before(c, s[0]) then [c] + s else [s[0]] + Insert(s[1..], c)
  }

  lemma {:induction false} InsertElements(s: seq<Coordinate>, c: Coordinate)
    ensures forall x :: x in Insert(s, c) <==> x in s || x == c
    ensures Insert(s, c) != []
    decreases |s|
  {
    if s != [] && !Before(c, s[0]) {
      InsertElements(s[1..], c);
      assert s == [s[0]] + s[1..];
    }
  }

  lemma {:induction false} PrependAscending(c: Coordinate, s: seq<Coordinate>)
    requires Ascending(s)
    requires forall x :: x in s ==> Before(c, x)
    ensures Ascending([c] + s)
  {
  }

  lemma {:induction false} InsertAscending(s: seq<Coordinate>, c: Coordinate)
    requires Ascending(s) && c !in s
    ensures Ascending(Insert(s, c))
    decreases |s|
  {
    if s == [] {
    } else if Before(c, s[0]) {
      forall x | x in s
        ensures Before(c, x)
      {
        FirstIsLeast(s, x);
        BeforeIsStrictTotal(c, s[0], x);
      }
      PrependAscending(c, s);
    } else {
      AscendingTail(s);
      InsertAscending(s[1..], c);
      InsertElements(s[1..], c);
      BeforeIsStrictTotal(c, s[0], s[0]);
      forall x | x in Insert(s[1..], c)
        ensures Before(s[0], x)
      {
        if x != c {
          assert x in Elements(s[1..]);
          FirstIsLeast(s, x);
        }
      }
      PrependAscending(s[0], Insert(s[1..], c));
    }
  }

  /** Enumerates a set of coordinates in ascending order. */
  method Sort(coordinates: set<Coordinate>) returns (s: seq<Coordinate>)
    ensures Ascending(s)
    ensures Elements(s) == coordinates
  {
    var remaining := coordinates;
    s := [];
    while remaining != {}
      invariant remaining <= coordinates
      invariant Ascending(s)
      invariant forall x :: x in s <==> x in coordinates - remaining
      decreases |remaining|
    {
      var c :| c in remaining;
      InsertAscending(s, c);
      InsertElements(s, c);
      s := Insert(s, c);
      remaining := remaining - {c};
    }
  }

  lemma {:induction false} SortExists(coordinates: set<Coordinate>)
    ensures exists s :: Ascending(s) && Elements(s) == coordinates
    decreases |coordinates|
  {
    if coordinates == {} {
      assert Ascending([]) && Elements<Coordinate>([]) == {};
    } else {
      var c :| c in coordinates;
      var rest := coordinates - {c};
      SortExists(rest);
      var s :| Ascending(s) && Elements(s) == rest;
      assert c !in s by {
        assert c !in Elements(s);
      }
      InsertAscending(s, c);
      InsertElements(s, c);
      assert forall x :: x in s <==> x in Elements(s);
      assert Elements(Insert(s, c)) == coordinates;
    }
  }

  /** The ascending enumeration, as a value. */
  ghost function Sorted(coordinates: set<Coordinate>): (s: seq<Coordinate>)
    ensures Ascending(s)
    ensures Elements(s) == coordinates
  {
    SortExists(coordinates);
    var s :| Ascending(s) && Elements(s) == coordinates;
    s
  }
}
