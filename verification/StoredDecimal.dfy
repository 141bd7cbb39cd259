/** Decimals in the shared-memory layout: two 64-bit halves of a two's-complement
    coefficient and a scale, read by the Rust crate (src/numeric.rs) and, independently,
    by the Python reader (examples/reader.py). */
module StoredDecimal {
  import opened Prelude
  import opened Decimals
  import opened DecimalText

  const TWO_64: nat := 0x1_0000_0000_0000_0000
  const TWO_127: nat := 0x8000_0000_0000_0000_0000_0000_0000_0000
  const TWO_128: nat := 0x1_0000_0000_0000_0000_0000_0000_0000_0000

  /** The widest grammar for a value that may not be negative. */
  const WIDEST := Grammar(U16_MAX, 39, true, false, 128, 5, 99_999)

  /** A 128-bit pattern read as two's complement. */
  function AsSigned(pattern: u128): i128 {
    if pattern < TWO_127 then pattern else pattern - TWO_128
  }

  /** `ExactDecimal::from_parts`. */
  function FromParts(low: u64, high: u64, scale: u16, g: Grammar): Result<Decimal, DecimalError> {
    Normalized(AsSigned(high * TWO_64 + low), scale, g)
  }

  function Pattern(coefficient: i128): u128 {
    if coefficient < 0 then coefficient + TWO_128 else coefficient
  }

  /** Storing a normal decimal's parts and rebuilding it is the identity, under every
      grammar that admits its sign, scale and digits. */
  lemma {:induction false} PartsInvert(d: Decimal, g: Grammar)
    requires IsNormal(d)
    requires d.coefficient < 0 ==> g.allowNegative
    requires d.scale <= g.maxScale
    requires DigitCount(Abs(d.coefficient)) <= g.maxDigits
    ensures var pattern := Pattern(d.coefficient);
            FromParts(pattern % TWO_64, pattern / TWO_64, d.scale, g) == Success(d)
  {
    NormalizedFixpoint(d, g);
  }

  /** `check_decimal`: the Python reader's two gates. */
  function CheckDecimal(low: u64, high: u64, scale: nat): Option<nat> {
    if scale > U16_MAX then None
    else
      var coefficient := high * TWO_64 + low;
      if coefficient >= TWO_127 then None else Some(coefficient)
  }

  /** `decimal_text`: the Python renderer refuses exactly what the Rust decoder refuses,
      and otherwise prints the Rust rendering of the Rust value. */
  method DecimalTextOf(low: u64, high: u64, scale: nat) returns (r: Option<string>)
    ensures scale > U16_MAX ==> r == None
    ensures scale <= U16_MAX ==>
      r == match FromParts(low, high, scale, WIDEST)
           case Success(d) => Some(Canonical(d))
           case Failure(_) => None
  {
    var checked := CheckDecimal(low, high, scale);
    if checked == None {
      return None;
    }
    var coefficient: nat, s: nat := checked.value, scale;
    ghost var stored := checked.value;
    StripKeepsValue(stored, scale);
    WidestCoefficient(Strip(stored, scale).coefficient);
    while s > 0 && coefficient % 10 == 0
      invariant coefficient <= I128_MAX && s <= U16_MAX
      invariant Strip(coefficient, s) == Strip(stored, scale)
      decreases s
    {
      coefficient, s := coefficient / 10, s - 1;
    }
    assert FromParts(low, high, scale, WIDEST) == Success(Decimal(coefficient, s));
    var digits := Digits(coefficient);
    assert Canonical(Decimal(coefficient, s)) == PlacePoint(digits, s);
    if s == 0 {
      return Some(digits);
    }
    if |digits| <= s {
      return Some("0." + Zeros(s - |digits|) + digits);
    }
    var split := |digits| - s;
    return Some(digits[..split] + "." + digits[split..]);
  }
}
