/** Exact addition and the complementary price `1 - p` (src/numeric.rs, src/book.rs). */
module Complement {
  import opened Prelude
  import opened Decimals
  import opened DecimalText

  /** The two decimal newtypes of the book: normal and never negative. */
  type Price = d: Decimal | IsNormal(d) && d.coefficient >= 0 witness Decimal(0, 0)
  type Quantity = d: Decimal | IsNormal(d) && d.coefficient >= 0 witness Decimal(0, 0)

  const NORMALIZED_GRAMMAR := Grammar(U16_MAX, 39, false, false, 128, 5, 99_999)

  const UNIT: Price := Decimal(1, 0)

  predicate InI128(n: int) {
    I128_MIN <= n <= I128_MAX
  }

  function CheckedScale(coefficient: i128, gap: nat): Option<int> {
    match CheckedPow10(gap, I128_MAX)
    case None => None
    case Some(factor) => if InI128(coefficient * factor) then Some(coefficient * factor) else None
  }

  /** `ExactDecimal::checked_add_with`. */
  function AddWith(a: Decimal, b: Decimal, g: Grammar): Result<Decimal, DecimalError> {
    var scale := Max(a.scale, b.scale);
    match (CheckedScale(a.coefficient, scale - a.scale), CheckedScale(b.coefficient, scale - b.scale))
    case (Some(left), Some(right)) =>
      if InI128(left + right) then Normalized(left + right, scale, g) else Failure(ArithmeticOverflow)
    case _ => Failure(ArithmeticOverflow)
  }

  /** `ExactDecimal::complement`. */
  function ComplementOf(d: Decimal, unit: Decimal, g: Grammar): Result<Decimal, DecimalError> {
    if d.coefficient == I128_MIN then Failure(ArithmeticOverflow)
    else AddWith(unit, Decimal(-d.coefficient, d.scale), g)
  }

  /** `complement_price`: the complement under the normalized grammar, read back through
      its own rendering as the source does. */
  function ComplementPrice(p: Price): Result<Decimal, DecimalError> {
    var value :- ComplementOf(p, UNIT, NORMALIZED_GRAMMAR);
    Parse(Canonical(value), NORMALIZED_GRAMMAR)
  }

  // ---------------------------------------------------------------------------------
  // Addition is exact
  // ---------------------------------------------------------------------------------

  lemma {:induction false} SameDenominator(x: int, y: int, scale: nat)
    ensures ScaledValue(x + y, scale) == ScaledValue(x, scale) + ScaledValue(y, scale)
  {
    DivisionDistributes(x as real, y as real, Pow10(scale) as real);
  }

  lemma {:induction false} DivisionDistributes(x: real, y: real, p: real)
    requires p > 0.0
    ensures (x + y) / p == x / p + y / p
  {
  }

  lemma {:induction false} RaisedScale(n: int, scale: nat, higher: nat)
    requires scale <= higher
    ensures ScaledValue(n * Pow10(higher - scale), higher) == ScaledValue(n, scale)
  {
    AlignedOrder(n, scale, n * Pow10(higher - scale), higher);
  }

  /** A sum that is accepted is the normal decimal of exactly the sum of the values. */
  lemma {:induction false} AddIsExact(a: Decimal, b: Decimal, g: Grammar)
    requires AddWith(a, b, g).Success?
    ensures IsNormal(AddWith(a, b, g).value)
    ensures Value(AddWith(a, b, g).value) == Value(a) + Value(b)
  {
    var scale := Max(a.scale, b.scale);
    var left := a.coefficient * Pow10(scale - a.scale);
    var right := b.coefficient * Pow10(scale - b.scale);
    RaisedScale(a.coefficient, a.scale, scale);
    RaisedScale(b.coefficient, b.scale, scale);
    SameDenominator(left, right, scale);
    NormalizedValue(left + right, scale, g);
  }

  // ---------------------------------------------------------------------------------
  // The complement on its exact domain
  // ---------------------------------------------------------------------------------

  /** Scales at which the unit still fits a 128-bit coefficient. */
  lemma {:induction false} UnitScales(scale: nat)
    ensures Pow10(scale) <= I128_MAX <==> scale <= 38
  {
    Pow10Values();
    if scale <= 38 {
      Pow10Monotone(scale, 38);
    } else {
      Pow10Monotone(39, scale);
    }
  }

  lemma {:induction false} AtMostUnit(p: Price)
    ensures Value(p) <= 1.0 <==> p.coefficient <= Pow10(p.scale)
  {
    AlignedOrder(1, 0, p.coefficient, p.scale);
    WholeValue(1);
  }

  /** Which prices have a complement, checked on the stored fields. */
  predicate Complementable(p: Price) {
    p.scale <= 38 && p.coefficient <= Pow10(p.scale)
  }

  lemma {:induction false} ScaledParts(c: i128, scale: u16)
    ensures CheckedScale(c, 0) == Some(c)
    ensures CheckedScale(1, scale) == if scale <= 38 then Some(Pow10(scale)) else None
  {
    UnitScales(scale);
    assert Pow10(0) == 1;
  }

  lemma {:induction false} UnitDifference(p: Price)
    ensures p.scale > 38 ==> ComplementOf(p, UNIT, NORMALIZED_GRAMMAR) == Failure(ArithmeticOverflow)
    ensures p.scale <= 38 ==>
      && InI128(Pow10(p.scale) - p.coefficient)
      && ComplementOf(p, UNIT, NORMALIZED_GRAMMAR)
         == Normalized(Pow10(p.scale) - p.coefficient, p.scale, NORMALIZED_GRAMMAR)
  {
    AddsAligned(Decimal(-p.coefficient, p.scale), NORMALIZED_GRAMMAR);
    ScaledParts(-p.coefficient, p.scale);
    if p.scale <= 38 {
      Room(p);
    }
  }

  lemma {:induction false} Room(p: Price)
    requires p.scale <= 38
    ensures InI128(Pow10(p.scale) - p.coefficient)
  {
    UnitScales(p.scale);
  }

  /** Adding to the unit: only the unit's coefficient is raised. */
  lemma {:induction false} AddsAligned(d: Decimal, g: Grammar)
    ensures AddWith(UNIT, d, g)
         == match (CheckedScale(1, d.scale), CheckedScale(d.coefficient, 0))
            case (Some(left), Some(right)) =>
              if InI128(left + right) then Normalized(left + right, d.scale, g) else Failure(ArithmeticOverflow)
            case _ => Failure(ArithmeticOverflow)
  {
    assert Max(UNIT.scale, d.scale) == d.scale;
  }

  lemma {:induction false} DifferenceNormalizes(difference: i128, scale: u16)
    ensures Normalized(difference, scale, NORMALIZED_GRAMMAR)
         == if difference < 0 then Failure(NegativeForbidden) else Success(Strip(difference, scale))
  {
    WidestCoefficient(Strip(difference, scale).coefficient);
  }

  lemma {:induction false} ShortRendering(d: Decimal)
    requires d.coefficient >= 0
    ensures |Canonical(d)| <= Max(DigitCount(d.coefficient), d.scale + 1) + 1
  {
    var n := CanonicalNumber(d);
    CanonicalParts(d);
    CanonicalIsRendering(d);
    assert |n.whole + n.fraction| == |n.whole| + |n.fraction|;
  }

  lemma {:induction false} RendersAndReturns(d: Decimal)
    requires IsNormal(d) && d.coefficient >= 0 && d.scale <= 38
    ensures Parse(Canonical(d), NORMALIZED_GRAMMAR) == Success(d)
  {
    WidestCoefficient(d.coefficient);
    ShortRendering(d);
    RoundTrip(d, NORMALIZED_GRAMMAR);
  }

  lemma {:induction false} DifferenceValue(p: Price)
    ensures ScaledValue(Pow10(p.scale) - p.coefficient, p.scale) == 1.0 - Value(p)
  {
    RaisedScale(1, 0, p.scale);
    WholeValue(1);
    NegatedScales(p.coefficient, p.scale);
    SameDenominator(Pow10(p.scale), -p.coefficient, p.scale);
  }

  lemma {:induction false} Headroom(p: Price)
    requires Complementable(p)
    ensures InI128(Pow10(p.scale) - p.coefficient)
  {
    UnitScales(p.scale);
  }

  function UnitMinus(p: Price): Decimal
    requires Complementable(p)
  {
    Headroom(p);
    Strip(Pow10(p.scale) - p.coefficient, p.scale)
  }

  lemma {:induction false} StrippedValue(coefficient: i128, scale: u16, value: real)
    requires ScaledValue(coefficient, scale) == value
    ensures Value(Strip(coefficient, scale)) == value
  {
    StripKeepsValue(coefficient, scale);
  }

  lemma {:induction false} StrippedShape(coefficient: i128, scale: u16)
    requires coefficient >= 0
    ensures var d := Strip(coefficient, scale);
            IsNormal(d) && d.coefficient >= 0 && d.scale <= scale
  {
    StripKeepsValue(coefficient, scale);
  }

  lemma {:induction false} UnitMinusIsExact(p: Price)
    requires Complementable(p)
    ensures IsNormal(UnitMinus(p)) && UnitMinus(p).coefficient >= 0 && UnitMinus(p).scale <= p.scale
    ensures Value(UnitMinus(p)) == 1.0 - Value(p)
  {
    Headroom(p);
    DifferenceValue(p);
    StrippedShape(Pow10(p.scale) - p.coefficient, p.scale);
    StrippedValue(Pow10(p.scale) - p.coefficient, p.scale, 1.0 - Value(p));
  }

  /** `complement_price` in closed form: its domain on the stored fields and its refusals. */
  lemma {:induction false} ComplementShape(p: Price)
    ensures ComplementPrice(p)
         == if p.scale > 38 then Failure(ArithmeticOverflow)
            else if p.coefficient > Pow10(p.scale) then Failure(NegativeForbidden)
            else Success(UnitMinus(p))
  {
    DifferenceShape(p);
    if Complementable(p) {
      UnitMinusReturns(p);
    }
  }

  lemma {:induction false} UnitMinusReturns(p: Price)
    requires Complementable(p)
    ensures Parse(Canonical(UnitMinus(p)), NORMALIZED_GRAMMAR) == Success(UnitMinus(p))
  {
    UnitMinusIsExact(p);
    RendersAndReturns(UnitMinus(p));
  }

  lemma {:induction false} DifferenceShape(p: Price)
    ensures ComplementOf(p, UNIT, NORMALIZED_GRAMMAR)
         == if p.scale > 38 then Failure(ArithmeticOverflow)
            else if p.coefficient > Pow10(p.scale) then Failure(NegativeForbidden)
            else Success(UnitMinus(p))
  {
    UnitDifference(p);
    if p.scale <= 38 {
      NormalizedDifference(p);
    }
  }

  lemma {:induction false} NormalizedDifference(p: Price)
    requires p.scale <= 38 && InI128(Pow10(p.scale) - p.coefficient)
    ensures Normalized(Pow10(p.scale) - p.coefficient, p.scale, NORMALIZED_GRAMMAR)
         == if p.coefficient > Pow10(p.scale) then Failure(NegativeForbidden) else Success(UnitMinus(p))
  {
    DifferenceNormalizes(Pow10(p.scale) - p.coefficient, p.scale);
  }

  /** The domain of `complement_price` in terms of value, and the value it computes. */
  lemma {:induction false} ComplementDomain(p: Price)
    ensures ComplementPrice(p).Success? <==> p.scale <= 38 && Value(p) <= 1.0
    ensures ComplementPrice(p).Success? ==>
      var q := ComplementPrice(p).value;
      && IsNormal(q) && q.coefficient >= 0 && q.scale <= p.scale
      && Value(q) == 1.0 - Value(p)
  {
    ComplementShape(p);
    AtMostUnit(p);
    if Complementable(p) {
      UnitMinusIsExact(p);
    }
  }

  /** Complementing twice gives the price back. */
  lemma {:induction false} ComplementIsInvolution(p: Price)
    requires ComplementPrice(p).Success?
    ensures var q := ComplementPrice(p).value;
            && IsNormal(q) && q.coefficient >= 0
            && ComplementPrice(q) == Success(p)
  {
    ComplementDomain(p);
    var q: Price := ComplementPrice(p).value;
    SignOfScaled(p.coefficient, p.scale);
    ComplementDomain(q);
    NormalFormIsUnique(ComplementPrice(q).value, p);
  }

  /** Complementing reverses the price order. */
  lemma {:induction false} ComplementReversesOrder(p: Price, q: Price)
    requires ComplementPrice(p).Success? && ComplementPrice(q).Success?
    ensures Compare(ComplementPrice(p).value, ComplementPrice(q).value) == Compare(q, p)
  {
    ComplementDomain(p);
    ComplementDomain(q);
    CompareExact(ComplementPrice(p).value, ComplementPrice(q).value);
    CompareExact(q, p);
  }

  /** The unit literal and the grammar are the ones the source builds. */
  lemma {:induction false} UnitParses()
    ensures NewGrammar(U16_MAX, 39, false, false) == Success(NORMALIZED_GRAMMAR)
    ensures Parse("1", NORMALIZED_GRAMMAR) == Success(UNIT)
  {
    RendersAndReturns(UNIT);
    assert Canonical(UNIT) == "1";
  }
}
