/** Exact decimals (src/numeric.rs): a 128-bit coefficient and a 16-bit scale standing
    for `coefficient * 10^-scale`. */
module Decimals {
  import opened Prelude

  datatype Decimal = Decimal(coefficient: i128, scale: u16)

  datatype Ordering = Less | Equal | Greater

  // ---------------------------------------------------------------------------------
  // Powers of ten
  // ---------------------------------------------------------------------------------

  function Pow10(n: nat): (p: nat)
    ensures 1 <= p
  {
    if n == 0 then 1 else 10 * Pow10(n - 1)
  }

  lemma {:induction false} Pow10Add(a: nat, b: nat)
    ensures Pow10(a + b) == Pow10(a) * Pow10(b)
  {
    if a != 0 {
      Pow10Add(a - 1, b);
      assert a + b - 1 == a - 1 + b;
    }
  }

  lemma {:induction false} Pow10Monotone(a: nat, b: nat)
    requires a <= b
    ensures Pow10(a) <= Pow10(b)
  {
    if a < b {
      Pow10Monotone(a, b - 1);
    }
  }

  lemma Pow10Values()
    ensures Pow10(38) == 100_000_000_000_000_000_000_000_000_000_000_000_000
    ensures Pow10(39) == 1_000_000_000_000_000_000_000_000_000_000_000_000_000
  {
    assert Pow10(3) == 1_000;
    assert Pow10(6) == 1_000_000 by { Pow10Add(3, 3); }
    assert Pow10(12) == 1_000_000_000_000 by { Pow10Add(6, 6); }
    assert Pow10(24) == 1_000_000_000_000_000_000_000_000 by { Pow10Add(12, 12); }
    assert Pow10(36) == 1_000_000_000_000_000_000_000_000_000_000_000_000 by { Pow10Add(24, 12); }
    assert Pow10(37) == 10 * Pow10(36);
    assert Pow10(38) == 10 * Pow10(37);
    assert Pow10(39) == 10 * Pow10(38);
  }

  // ---------------------------------------------------------------------------------
  // Mathematical value
  // ---------------------------------------------------------------------------------

  ghost function Value(d: Decimal): real {
    ScaledValue(d.coefficient, d.scale)
  }

  ghost function ScaledValue(coefficient: int, scale: nat): real {
    coefficient as real / Pow10(scale) as real
  }

  /** The order of two scaled integers is the order of the integers once the one with
      the smaller scale is multiplied up to the larger scale. */
  lemma AlignedOrder(left: int, leftScale: nat, right: int, rightScale: nat)
    requires leftScale <= rightScale
    ensures var aligned := left * Pow10(rightScale - leftScale);
            && (ScaledValue(left, leftScale) < ScaledValue(right, rightScale) <==> aligned < right)
            && (ScaledValue(left, leftScale) == ScaledValue(right, rightScale) <==> aligned == right)
  {
    Pow10Add(leftScale, rightScale - leftScale);
    FractionOrder(left, right, Pow10(leftScale), Pow10(rightScale - leftScale));
  }

  lemma FractionOrder(left: int, right: int, p: int, q: int)
    requires 0 < p && 0 < q
    ensures 0 < p * q
    ensures left as real / p as real < right as real / (p * q) as real <==> left * q < right
    ensures left as real / p as real == right as real / (p * q) as real <==> left * q == right
  {
    PositiveProduct(p, q);
    ProductCasts(p, q);
    ProductCasts(left, q);
    QuotientOrder(left as real, right as real, p as real, q as real);
  }

  lemma PositiveProduct(p: int, q: int)
    requires 0 < p && 0 < q
    ensures 0 < p * q
  {
  }

  lemma ProductCasts(x: int, y: int)
    ensures (x * y) as real == x as real * y as real
  {
  }

  lemma QuotientOrder(left: real, right: real, p: real, q: real)
    requires 0.0 < p && 0.0 < q && 0.0 < p * q
    ensures left / p < right / (p * q) <==> left * q < right
    ensures left / p == right / (p * q) <==> left * q == right
  {
    var x, y, k := left / p, right / (p * q), p * q;
    assert x * k == left * q by {
      assert x * p == left;
      assert x * (p * q) == (x * p) * q;
    }
    assert y * k == right;
    ScalingKeepsOrder(x, y, k);
  }

  lemma ScalingKeepsOrder(x: real, y: real, k: real)
    requires 0.0 < k
    ensures x < y <==> x * k < y * k
    ensures x == y <==> x * k == y * k
  {
    if x < y { assert 0.0 < (y - x) * k; }
    if y < x { assert 0.0 < (x - y) * k; }
  }

  // ---------------------------------------------------------------------------------
  // Comparison with overflow as an answer
  // ---------------------------------------------------------------------------------

  function CheckedPow10(exponent: nat, limit: nat): Option<nat> {
    if Pow10(exponent) <= limit then Some(Pow10(exponent)) else None
  }

  function CompareInts(left: int, right: int): Ordering {
    if left < right then Less else if left == right then Equal else Greater
  }

  function Reverse(o: Ordering): Ordering {
    match o
    case Less => Greater
    case Equal => Equal
    case Greater => Less
  }

  function Signum(n: int): int {
    if n < 0 then -1 else if n == 0 then 0 else 1
  }

  function CompareMagnitudes(left: u128, leftScale: u16, right: u128, rightScale: u16): Ordering {
    if leftScale == rightScale || left == 0 || right == 0 then
      CompareInts(left, right)
    else if leftScale < rightScale then
      match CheckedPow10(rightScale - leftScale, U128_MAX)
      case None => Greater
      case Some(factor) => if left * factor <= U128_MAX then CompareInts(left * factor, right) else Greater
    else
      match CheckedPow10(leftScale - rightScale, U128_MAX)
      case None => Less
      case Some(factor) => if right * factor <= U128_MAX then CompareInts(left, right * factor) else Less
  }

  function Compare(a: Decimal, b: Decimal): Ordering {
    var sign := CompareInts(Signum(a.coefficient), Signum(b.coefficient));
    if sign != Equal then sign
    else if a.coefficient == 0 then Equal
    else
      var magnitude := CompareMagnitudes(Abs(a.coefficient), a.scale, Abs(b.coefficient), b.scale);
      if a.coefficient < 0 then Reverse(magnitude) else magnitude
  }

  function Abs(n: int): nat {
    if n < 0 then -n else n
  }

  ghost predicate Orders(o: Ordering, x: real, y: real) {
    && (o == Less <==> x < y)
    && (o == Equal <==> x == y)
    && (o == Greater <==> x > y)
  }

  lemma ProductDominates(x: int, y: int)
    requires 1 <= x && 0 <= y
    ensures y <= x * y
  {
  }

  lemma ZeroScales(scale: nat)
    ensures ScaledValue(0, scale) == 0.0
  {
  }

  lemma SignOfScaled(n: int, scale: nat)
    ensures n < 0 <==> ScaledValue(n, scale) < 0.0
    ensures n == 0 <==> ScaledValue(n, scale) == 0.0
  {
    AlignedOrder(0, 0, n, scale);
    AlignedOrder(n, scale, 0, scale);
    ZeroScales(0);
    ZeroScales(scale);
    assert n * Pow10(0) == n;
  }

  /** The unsigned comparison is exact for every pair of 128-bit magnitudes and every
      pair of 16-bit scales, the two overflow exits included. */
  lemma CompareMagnitudesExact(left: u128, leftScale: u16, right: u128, rightScale: u16)
    ensures Orders(CompareMagnitudes(left, leftScale, right, rightScale),
                   ScaledValue(left, leftScale), ScaledValue(right, rightScale))
  {
    SignOfScaled(left, leftScale);
    SignOfScaled(right, rightScale);
    if leftScale <= rightScale {
      AlignedOrder(left, leftScale, right, rightScale);
      if left != 0 {
        ProductDominates(left, Pow10(rightScale - leftScale));
      }
    } else {
      AlignedOrder(right, rightScale, left, leftScale);
      if right != 0 {
        ProductDominates(right, Pow10(leftScale - rightScale));
      }
    }
  }

  lemma NegatedScales(n: int, scale: nat)
    ensures ScaledValue(-n, scale) == -ScaledValue(n, scale)
  {
  }

  /** `cmp` is the order of the mathematical values. */
  lemma CompareExact(a: Decimal, b: Decimal)
    ensures Orders(Compare(a, b), Value(a), Value(b))
  {
    SignOfScaled(a.coefficient, a.scale);
    SignOfScaled(b.coefficient, b.scale);
    NegatedScales(a.coefficient, a.scale);
    NegatedScales(b.coefficient, b.scale);
    CompareMagnitudesExact(Abs(a.coefficient), a.scale, Abs(b.coefficient), b.scale);
  }

  /** Hence `cmp` is a total order up to equal value: antisymmetric, transitive, total. */
  lemma CompareIsTotalOrder(a: Decimal, b: Decimal, c: Decimal)
    ensures Compare(a, b) == Reverse(Compare(b, a))
    ensures Compare(a, b) != Greater && Compare(b, c) != Greater ==> Compare(a, c) != Greater
    ensures Compare(a, b) == Less && Compare(b, c) != Greater ==> Compare(a, c) == Less
    ensures Compare(a, b) != Greater && Compare(b, c) == Less ==> Compare(a, c) == Less
    ensures Compare(a, a) == Equal
  {
    CompareExact(a, b);
    CompareExact(b, a);
    CompareExact(b, c);
    CompareExact(a, c);
    CompareExact(a, a);
  }

  // ---------------------------------------------------------------------------------
  // Normal form
  // ---------------------------------------------------------------------------------

  /** No fraction digit is a trailing zero; in particular zero has scale 0. */
  predicate IsNormal(d: Decimal) {
    d.scale == 0 || d.coefficient % 10 != 0
  }

  lemma TenDividesAligned(n: int, gap: nat)
    requires 0 < gap
    ensures (n * Pow10(gap)) % 10 == 0
  {
    TenTimes(n, Pow10(gap - 1));
  }

  lemma TenTimes(n: int, p: int)
    ensures (n * (10 * p)) % 10 == 0
  {
    assert n * (10 * p) == 10 * (n * p);
  }

  /** Two normal decimals with one value are one decimal. */
  lemma NormalFormIsUnique(a: Decimal, b: Decimal)
    requires IsNormal(a) && IsNormal(b)
    requires Value(a) == Value(b)
    ensures a == b
  {
    if a.scale <= b.scale {
      AlignedOrder(a.coefficient, a.scale, b.coefficient, b.scale);
      if a.scale < b.scale {
        TenDividesAligned(a.coefficient, b.scale - a.scale);
      }
    } else {
      AlignedOrder(b.coefficient, b.scale, a.coefficient, a.scale);
      TenDividesAligned(b.coefficient, a.scale - b.scale);
    }
  }

  /** On normal decimals the order answers Equal exactly for identical fields, so map
      lookup by order and by structural equality agree. */
  lemma EqualMeansIdentical(a: Decimal, b: Decimal)
    requires IsNormal(a) && IsNormal(b)
    ensures Compare(a, b) == Equal <==> a == b
  {
    CompareExact(a, b);
    if Compare(a, b) == Equal {
      NormalFormIsUnique(a, b);
    }
  }

  // ---------------------------------------------------------------------------------
  // Normalization
  // ---------------------------------------------------------------------------------

  datatype Grammar = Grammar(
    maxScale: u16,
    maxDigits: nat,
    allowExponent: bool,
    allowNegative: bool,
    maxLexemeBytes: nat,
    maxExponentDigits: nat,
    maxExponentMagnitude: nat)

  datatype DecimalError =
    | Empty
    | InvalidLexeme
    | ExponentForbidden
    | ScaleOverflow
    | PrecisionExceeded
    | CoefficientOverflow
    | NegativeForbidden
    | ArithmeticOverflow
    | RepresentationLimit
    | LexemeTooLong
    | ExponentTooLarge

  /** `DecimalGrammar::new` with its default limits. */
  function NewGrammar(maxScale: u16, maxDigits: nat, allowExponent: bool, allowNegative: bool)
    : Result<Grammar, DecimalError>
  {
    if maxDigits == 0 || maxDigits > 39 then Failure(RepresentationLimit)
    else Success(Grammar(maxScale, maxDigits, allowExponent, allowNegative, 128, 5, 99_999))
  }

  /** How many characters the decimal rendering of `n` has. */
  function DigitCount(n: nat): (k: nat)
    ensures 1 <= k
  {
    if n < 10 then 1 else 1 + DigitCount(n / 10)
  }

  lemma {:induction false} DigitCountBounds(n: nat, k: nat)
    requires 1 <= k
    ensures DigitCount(n) <= k <==> n < Pow10(k)
  {
    if k == 1 {
      assert Pow10(1) == 10;
    } else if n < 10 {
      Pow10Monotone(1, k);
      assert Pow10(1) == 10;
    } else {
      DigitCountBounds(n / 10, k - 1);
    }
  }

  /** Drops trailing zero fraction digits. */
  function Strip(coefficient: i128, scale: u16): (d: Decimal)
    decreases scale
  {
    if scale > 0 && coefficient % 10 == 0 then Strip(coefficient / 10, scale - 1)
    else Decimal(coefficient, scale)
  }

  lemma {:induction false} StripKeepsValue(coefficient: i128, scale: u16)
    ensures var d := Strip(coefficient, scale);
            && IsNormal(d)
            && Value(d) == ScaledValue(coefficient, scale)
            && d.scale <= scale
            && Signum(d.coefficient) == Signum(coefficient)
            && Abs(d.coefficient) <= Abs(coefficient)
    decreases scale
  {
    if scale > 0 && coefficient % 10 == 0 {
      var shorter := coefficient / 10;
      StripKeepsValue(shorter, scale - 1);
      AlignedOrder(shorter, scale - 1, coefficient, scale);
      assert shorter * Pow10(1) == coefficient;
    }
  }

  function Normalized(coefficient: i128, scale: u16, grammar: Grammar): Result<Decimal, DecimalError> {
    if coefficient < 0 && !grammar.allowNegative then Failure(NegativeForbidden)
    else if scale > grammar.maxScale then Failure(PrecisionExceeded)
    else
      var d := Strip(coefficient, scale);
      if DigitCount(Abs(d.coefficient)) > grammar.maxDigits then Failure(PrecisionExceeded)
      else Success(d)
  }

  /** `ExactDecimal::normalize`: the stripping loop. */
  method Normalize(coefficient: i128, scale: u16, grammar: Grammar)
    returns (r: Result<Decimal, DecimalError>)
    ensures r == Normalized(coefficient, scale, grammar)
    ensures r.Success? ==> IsNormal(r.value) && Value(r.value) == ScaledValue(coefficient, scale)
  {
    StripKeepsValue(coefficient, scale);
    if coefficient < 0 && !grammar.allowNegative {
      return Failure(NegativeForbidden);
    }
    if scale > grammar.maxScale {
      return Failure(PrecisionExceeded);
    }
    var c, s := coefficient, scale;
    while s > 0 && c % 10 == 0
      invariant Strip(c, s) == Strip(coefficient, scale)
      decreases s
    {
      c, s := c / 10, s - 1;
    }
    if DigitCount(Abs(c)) > grammar.maxDigits {
      return Failure(PrecisionExceeded);
    }
    return Success(Decimal(c, s));
  }

  /** Normalizing a normal decimal gives it back whenever the grammar has room for it. */
  lemma NormalizedFixpoint(d: Decimal, grammar: Grammar)
    requires IsNormal(d)
    requires d.coefficient < 0 ==> grammar.allowNegative
    requires d.scale <= grammar.maxScale
    requires DigitCount(Abs(d.coefficient)) <= grammar.maxDigits
    ensures Normalized(d.coefficient, d.scale, grammar) == Success(d)
  {
  }

  /** Every 128-bit coefficient has at most 39 digits. */
  lemma WidestCoefficient(n: int)
    requires I128_MIN <= n <= I128_MAX
    ensures DigitCount(Abs(n)) <= 39
  {
    Pow10Values();
    DigitCountBounds(Abs(n), 39);
  }
}
