/** The text form of exact decimals (src/numeric.rs): rendering, lexing and parsing.
    A text is the sequence of its bytes, one `char` per byte. */
module DecimalText {
  import opened Prelude
  import opened Decimals

  // ---------------------------------------------------------------------------------
  // Digit strings
  // ---------------------------------------------------------------------------------

  predicate IsDigit(c: char) {
    '0' <= c <= '9'
  }

  predicate AllDigits(s: string) {
    forall i :: 0 <= i < |s| ==> IsDigit(s[i])
  }

  function DigitChar(d: nat): (c: char)
    requires d < 10
  {
    ('0' as int + d) as char
  }

  function DigitValue(c: char): nat
    requires IsDigit(c)
  {
    c as int - '0' as int
  }

  function Digits(n: nat): string {
    if n < 10 then [DigitChar(n)] else Digits(n / 10) + [DigitChar(n % 10)]
  }

  function NatOf(s: string): nat
    requires AllDigits(s)
  {
    if s == "" then 0 else 10 * NatOf(s[..|s| - 1]) + DigitValue(s[|s| - 1])
  }

  function Zeros(k: nat): string {
    seq(k, _ => '0')
  }

  /** Rendering a natural number and reading it back. */
  lemma {:induction false} DigitsReadBack(n: nat)
    ensures AllDigits(Digits(n))
    ensures NatOf(Digits(n)) == n
    ensures |Digits(n)| == DigitCount(n)
    ensures |Digits(n)| > 1 ==> Digits(n)[0] != '0'
  {
    if n >= 10 {
      DigitsReadBack(n / 10);
      var s := Digits(n);
      assert s[..|s| - 1] == Digits(n / 10);
    }
  }

  lemma {:induction false} LeadingZerosVanish(k: nat, s: string)
    requires AllDigits(s)
    ensures AllDigits(Zeros(k) + s)
    ensures NatOf(Zeros(k) + s) == NatOf(s)
  {
    var t := Zeros(k) + s;
    if s != "" {
      LeadingZerosVanish(k, s[..|s| - 1]);
      assert t[..|t| - 1] == Zeros(k) + s[..|s| - 1];
    } else if k > 0 {
      LeadingZerosVanish(k - 1, "");
      assert t[..|t| - 1] == Zeros(k - 1) + "";
    } else {
      assert t == "";
    }
  }

  lemma {:induction false} NatOfBound(s: string)
    requires AllDigits(s)
    ensures NatOf(s) < Pow10(|s|)
  {
    if s != "" {
      NatOfBound(s[..|s| - 1]);
    }
  }

  /** The index of the first character of `s` in `marks`, or `|s|`. */
  function FirstOf(s: string, marks: set<char>): (i: nat)
    ensures i <= |s|
    ensures forall j :: 0 <= j < i ==> s[j] !in marks
    ensures i < |s| ==> s[i] in marks
  {
    if s == "" || s[0] in marks then 0 else
      var i := FirstOf(s[1..], marks);
      assert forall j :: 1 <= j < 1 + i ==> s[j] == s[1..][j - 1];
      1 + i
  }

  lemma {:induction false} FirstOfConcat(a: string, b: string, marks: set<char>)
    requires forall j :: 0 <= j < |a| ==> a[j] !in marks
    requires b == "" || b[0] in marks
    ensures FirstOf(a + b, marks) == |a|
  {
    assert forall j :: 0 <= j < |a| ==> (a + b)[j] == a[j];
    assert b != "" ==> (a + b)[|a|] == b[0];
  }

  const EXPONENT_MARKS := {'e', 'E'}
  const SIGNS := {'+', '-'}

  // ---------------------------------------------------------------------------------
  // Rendering
  // ---------------------------------------------------------------------------------

  /** Puts the decimal point `scale` digits from the right, padding with zeros. */
  function PlacePoint(digits: string, scale: nat): string {
    if scale == 0 then digits
    else if |digits| <= scale then "0." + Zeros(scale - |digits|) + digits
    else digits[..|digits| - scale] + "." + digits[|digits| - scale..]
  }

  /** `ExactDecimal::canonical`. */
  function Canonical(d: Decimal): string {
    (if d.coefficient < 0 then "-" else "") + PlacePoint(Digits(Abs(d.coefficient)), d.scale)
  }

  // ---------------------------------------------------------------------------------
  // Number texts: the grammar of section 6 of RFC 8259
  // ---------------------------------------------------------------------------------

  datatype ExponentSign = Unsigned | Plus | Minus

  datatype Exponent = NoExponent | Exponent(mark: char, sign: ExponentSign, digits: string)

  datatype Number = Number(negative: bool, whole: string, fraction: string, exponent: Exponent)

  ghost predicate IsExponent(e: Exponent) {
    e.Exponent? ==>
      && e.mark in EXPONENT_MARKS
      && e.digits != ""
      && AllDigits(e.digits)
  }

  ghost predicate IsNumber(n: Number) {
    && n.whole != ""
    && AllDigits(n.whole)
    && (|n.whole| > 1 ==> n.whole[0] != '0')
    && AllDigits(n.fraction)
    && IsExponent(n.exponent)
  }

  function RenderSign(sign: ExponentSign): string {
    match sign
    case Unsigned => ""
    case Plus => "+"
    case Minus => "-"
  }

  function RenderExponent(e: Exponent): string {
    if e.NoExponent? then "" else [e.mark] + (RenderSign(e.sign) + e.digits)
  }

  function RenderMantissa(whole: string, fraction: string): string {
    whole + (if fraction == "" then "" else "." + fraction)
  }

  function RenderUnsigned(n: Number): string {
    RenderMantissa(n.whole, n.fraction) + RenderExponent(n.exponent)
  }

  function Render(n: Number): string {
    if n.negative then "-" + RenderUnsigned(n) else RenderUnsigned(n)
  }

  function Signed(negative: bool, magnitude: int): int {
    if negative then -magnitude else magnitude
  }

  ghost function ExponentValue(e: Exponent): int
    requires IsExponent(e)
  {
    if e.NoExponent? then 0 else Signed(e.sign.Minus?, NatOf(e.digits))
  }

  lemma {:induction false} AllDigitsConcat(a: string, b: string)
    requires AllDigits(a) && AllDigits(b)
    ensures AllDigits(a + b)
  {
  }

  /** `n * 10^-scale` for a scale of either sign. */
  ghost function Shifted(n: int, scale: int): real {
    if scale >= 0 then ScaledValue(n, scale) else (n * Pow10(-scale)) as real
  }

  ghost function NumberValue(n: Number): real
    requires IsNumber(n)
  {
    AllDigitsConcat(n.whole, n.fraction);
    Shifted(Signed(n.negative, NatOf(n.whole + n.fraction)), |n.fraction| - ExponentValue(n.exponent))
  }

  // ---------------------------------------------------------------------------------
  // Parsing
  // ---------------------------------------------------------------------------------

  /** Reads what follows the exponent mark. */
  function ReadExponent(raw: string, g: Grammar): Result<int, DecimalError> {
    var digits := if raw != "" && raw[0] in SIGNS then raw[1..] else raw;
    if digits == "" || |digits| > g.maxExponentDigits || !AllDigits(digits) then Failure(InvalidLexeme)
    else
      var exponent := Signed(raw[0] == '-', NatOf(digits));
      if !(I32_MIN <= exponent <= I32_MAX) then Failure(InvalidLexeme)
      else if Abs(exponent) > g.maxExponentMagnitude then Failure(ExponentTooLarge)
      else Success(exponent)
  }

  /** The exponent part of `parse`: the mantissa text and the exponent read. */
  function ParseExponent(unsigned: string, g: Grammar): Result<(string, int), DecimalError> {
    var index := FirstOf(unsigned, EXPONENT_MARKS);
    if index == |unsigned| then Success((unsigned, 0))
    else
      var raw := unsigned[index + 1..];
      if !g.allowExponent || FirstOf(raw, EXPONENT_MARKS) < |raw| then Failure(ExponentForbidden)
      else
        var exponent :- ReadExponent(raw, g);
        Success((unsigned[..index], exponent))
  }

  /** The arithmetic part of `parse`, once the lexeme has been taken apart. */
  function Assemble(negative: bool, whole: string, fraction: string, exponent: int, g: Grammar)
    : Result<Decimal, DecimalError>
    requires AllDigits(whole + fraction)
  {
    if |whole + fraction| > g.maxDigits then Failure(PrecisionExceeded)
    else
      var magnitude := NatOf(whole + fraction);
      if magnitude > I128_MAX then Failure(CoefficientOverflow)
      else if magnitude == 0 then Normalized(0, 0, g)
      else AssembleScaled(negative, magnitude, |fraction| - exponent, g)
  }

  /** A nonzero magnitude under its scale; a negative scale is raised to 0. */
  function AssembleScaled(negative: bool, magnitude: nat, scale: int, g: Grammar): Result<Decimal, DecimalError>
    requires magnitude <= I128_MAX
  {
    if !(I32_MIN <= scale <= I32_MAX) then Failure(ScaleOverflow)
    else
      var raised := if scale < 0 then magnitude * Pow10(-scale) else magnitude;
      if raised > I128_MAX then Failure(CoefficientOverflow)
      else if scale > U16_MAX then Failure(ScaleOverflow)
      else Normalized(Signed(negative, raised), if scale < 0 then 0 else scale, g)
  }

  function ParseMantissa(negative: bool, mantissa: string, exponent: int, g: Grammar)
    : Result<Decimal, DecimalError>
  {
    var dot := FirstOf(mantissa, {'.'});
    var whole, fraction := mantissa[..dot], if dot < |mantissa| then mantissa[dot + 1..] else "";
    if whole == "" || !AllDigits(whole) || !AllDigits(fraction)
       || (dot < |mantissa| && fraction == "") || (|whole| > 1 && whole[0] == '0')
    then Failure(InvalidLexeme)
    else
      AllDigitsConcat(whole, fraction);
      Assemble(negative, whole, fraction, exponent, g)
  }

  /** The part of `parse` that follows the sign. */
  function ParseUnsigned(negative: bool, unsigned: string, g: Grammar): Result<Decimal, DecimalError> {
    var (mantissa, exponent) :- ParseExponent(unsigned, g);
    ParseMantissa(negative, mantissa, exponent, g)
  }

  /** `ExactDecimal::parse`. */
  function Parse(lexeme: string, g: Grammar): Result<Decimal, DecimalError> {
    if lexeme == "" then Failure(Empty)
    else if |lexeme| > g.maxLexemeBytes then Failure(LexemeTooLong)
    else if lexeme[0] == '+' then Failure(InvalidLexeme)
    else
      var negative := lexeme[0] == '-';
      if negative && !g.allowNegative then Failure(NegativeForbidden)
      else ParseUnsigned(negative, if negative then lexeme[1..] else lexeme, g)
  }

  // ---------------------------------------------------------------------------------
  // Every number text reaches `Assemble` with its own parts
  // ---------------------------------------------------------------------------------

  /** What `parse` checks of the exponent before doing arithmetic. */
  ghost function JudgeExponent(e: Exponent, g: Grammar): Result<int, DecimalError>
    requires IsExponent(e)
  {
    if e.NoExponent? then Success(0)
    else if !g.allowExponent then Failure(ExponentForbidden)
    else if |e.digits| > g.maxExponentDigits || !(I32_MIN <= ExponentValue(e) <= I32_MAX) then Failure(InvalidLexeme)
    else if Abs(ExponentValue(e)) > g.maxExponentMagnitude then Failure(ExponentTooLarge)
    else Success(ExponentValue(e))
  }

  ghost function Judge(n: Number, g: Grammar): Result<Decimal, DecimalError>
    requires IsNumber(n)
  {
    AllDigitsConcat(n.whole, n.fraction);
    if |Render(n)| > g.maxLexemeBytes then Failure(LexemeTooLong)
    else if n.negative && !g.allowNegative then Failure(NegativeForbidden)
    else
      var exponent :- JudgeExponent(n.exponent, g);
      Assemble(n.negative, n.whole, n.fraction, exponent, g)
  }

  lemma {:induction false} MantissaCharacters(whole: string, fraction: string)
    requires AllDigits(whole) && AllDigits(fraction)
    ensures var m := RenderMantissa(whole, fraction);
            forall i :: 0 <= i < |m| ==> IsDigit(m[i]) || m[i] == '.'
  {
  }

  lemma {:induction false} RawHasNoMark(sign: ExponentSign, digits: string)
    requires AllDigits(digits)
    ensures var raw := RenderSign(sign) + digits;
            FirstOf(raw, EXPONENT_MARKS) == |raw|
  {
    var raw := RenderSign(sign) + digits;
    FirstOfConcat(raw, "", EXPONENT_MARKS);
    assert raw + "" == raw;
  }

  lemma {:induction false} RawReads(e: Exponent, g: Grammar)
    requires IsExponent(e) && e.Exponent? && g.allowExponent
    ensures ReadExponent(RenderSign(e.sign) + e.digits, g) == JudgeExponent(e, g)
  {
    var raw := RenderSign(e.sign) + e.digits;
    SignSplits(e.sign, e.digits);
    assert Signed(raw[0] == '-', NatOf(e.digits)) == ExponentValue(e);
  }

  lemma {:induction false} SignSplits(sign: ExponentSign, digits: string)
    requires AllDigits(digits) && digits != ""
    ensures var raw := RenderSign(sign) + digits;
            && raw != ""
            && (raw[0] == '-' <==> sign.Minus?)
            && (if raw[0] in SIGNS then raw[1..] else raw) == digits
  {
    var raw := RenderSign(sign) + digits;
    assert IsDigit(digits[0]);
    if sign == Unsigned {
      assert raw == digits;
    } else {
      assert raw[1..] == digits;
    }
  }

  lemma {:induction false} ExponentOfNumber(mantissa: string, e: Exponent, g: Grammar)
    requires IsExponent(e)
    requires forall i :: 0 <= i < |mantissa| ==> IsDigit(mantissa[i]) || mantissa[i] == '.'
    ensures var judged := JudgeExponent(e, g);
            ParseExponent(mantissa + RenderExponent(e), g)
            == if judged.Failure? then Failure(judged.error) else Success((mantissa, judged.value))
  {
    var unsigned := mantissa + RenderExponent(e);
    FirstOfConcat(mantissa, RenderExponent(e), EXPONENT_MARKS);
    if e.NoExponent? {
      assert unsigned == mantissa;
    } else {
      assert unsigned[|mantissa| + 1..] == RenderSign(e.sign) + e.digits;
      assert unsigned[..|mantissa|] == mantissa;
      if g.allowExponent {
        RawHasNoMark(e.sign, e.digits);
        RawReads(e, g);
      }
    }
  }

  lemma {:induction false} MantissaOfNumber(negative: bool, whole: string, fraction: string, exponent: int, g: Grammar)
    requires whole != "" && AllDigits(whole) && AllDigits(fraction)
    requires |whole| > 1 ==> whole[0] != '0'
    ensures AllDigits(whole + fraction)
    ensures ParseMantissa(negative, RenderMantissa(whole, fraction), exponent, g)
         == Assemble(negative, whole, fraction, exponent, g)
  {
    var m := RenderMantissa(whole, fraction);
    FirstOfConcat(whole, m[|whole|..], {'.'});
    assert m == whole + m[|whole|..];
    assert m[..|whole|] == whole;
    if fraction != "" {
      assert m[|whole| + 1..] == fraction;
    }
  }

  /** A number text is judged on its own parts: nothing is lost in taking it apart. */
  lemma {:induction false} NumberIsJudged(n: Number, g: Grammar)
    requires IsNumber(n)
    ensures Parse(Render(n), g) == Judge(n, g)
  {
    ParseTakesSignOff(n, g);
    UnsignedIsJudged(n, g);
  }

  lemma {:induction false} SignComesOff(n: Number)
    requires IsNumber(n)
    ensures var lexeme := Render(n);
            && lexeme != "" && lexeme[0] != '+' && (lexeme[0] == '-' <==> n.negative)
            && (if n.negative then lexeme[1..] else lexeme) == RenderUnsigned(n)
  {
    assert RenderUnsigned(n)[0] == n.whole[0];
    assert IsDigit(n.whole[0]);
  }

  lemma {:induction false} ParseTakesSignOff(n: Number, g: Grammar)
    requires IsNumber(n)
    ensures Parse(Render(n), g)
         == if |Render(n)| > g.maxLexemeBytes then Failure(LexemeTooLong)
            else if n.negative && !g.allowNegative then Failure(NegativeForbidden)
            else ParseUnsigned(n.negative, RenderUnsigned(n), g)
  {
    SignComesOff(n);
  }

  lemma {:induction false} UnsignedIsJudged(n: Number, g: Grammar)
    requires IsNumber(n)
    ensures AllDigits(n.whole + n.fraction)
    ensures ParseUnsigned(n.negative, RenderUnsigned(n), g)
         == match JudgeExponent(n.exponent, g)
            case Failure(error) => Failure(error)
            case Success(exponent) => Assemble(n.negative, n.whole, n.fraction, exponent, g)
  {
    MantissaCharacters(n.whole, n.fraction);
    AllDigitsConcat(n.whole, n.fraction);
    ExponentOfNumber(RenderMantissa(n.whole, n.fraction), n.exponent, g);
    if JudgeExponent(n.exponent, g).Success? {
      MantissaOfNumber(n.negative, n.whole, n.fraction, JudgeExponent(n.exponent, g).value, g);
    }
  }

  // ---------------------------------------------------------------------------------
  // Nothing but a number text is accepted
  // ---------------------------------------------------------------------------------

  lemma {:induction false} SplitRaw(raw: string, g: Grammar) returns (sign: ExponentSign, digits: string)
    requires ReadExponent(raw, g).Success?
    ensures digits != "" && AllDigits(digits)
    ensures raw == RenderSign(sign) + digits
  {
    sign := if raw[0] == '+' then Plus else if raw[0] == '-' then Minus else Unsigned;
    digits := if sign == Unsigned then raw else raw[1..];
  }

  lemma {:induction false} SplitExponent(unsigned: string, g: Grammar) returns (mantissa: string, e: Exponent)
    requires ParseExponent(unsigned, g).Success?
    ensures IsExponent(e)
    ensures unsigned == mantissa + RenderExponent(e)
    ensures ParseExponent(unsigned, g).value.0 == mantissa
  {
    var index := FirstOf(unsigned, EXPONENT_MARKS);
    if index == |unsigned| {
      UnmarkedExponent(unsigned, g);
      mantissa, e := unsigned, NoExponent;
    } else {
      MarkedExponent(unsigned, g);
      e := SplitAfterMark(unsigned, index, g);
      mantissa := unsigned[..index];
    }
  }

  lemma {:induction false} UnmarkedExponent(unsigned: string, g: Grammar)
    requires FirstOf(unsigned, EXPONENT_MARKS) == |unsigned|
    ensures ParseExponent(unsigned, g) == Success((unsigned, 0))
    ensures unsigned == unsigned + RenderExponent(NoExponent)
  {
  }

  lemma {:induction false} SplitAfterMark(unsigned: string, index: nat, g: Grammar) returns (e: Exponent)
    requires index < |unsigned| && unsigned[index] in EXPONENT_MARKS
    requires ReadExponent(unsigned[index + 1..], g).Success?
    ensures IsExponent(e) && unsigned == unsigned[..index] + RenderExponent(e)
  {
    var sign, digits := SplitRaw(unsigned[index + 1..], g);
    e := Exponent(unsigned[index], sign, digits);
    RejoinsAtMark(unsigned, index, e);
  }

  /** What reading a marked exponent went through. */
  lemma {:induction false} MarkedExponent(unsigned: string, g: Grammar)
    requires ParseExponent(unsigned, g).Success? && FirstOf(unsigned, EXPONENT_MARKS) < |unsigned|
    ensures var index := FirstOf(unsigned, EXPONENT_MARKS);
            && ReadExponent(unsigned[index + 1..], g).Success?
            && ParseExponent(unsigned, g).value.0 == unsigned[..index]
  {
  }

  lemma {:induction false} RejoinsAtMark(unsigned: string, index: nat, e: Exponent)
    requires index < |unsigned| && e.Exponent? && e.mark == unsigned[index]
    requires unsigned[index + 1..] == RenderSign(e.sign) + e.digits
    ensures unsigned == unsigned[..index] + RenderExponent(e)
  {
    SplitAt(unsigned, index);
  }

  lemma {:induction false} SplitAt(s: string, i: nat)
    requires i < |s|
    ensures s == s[..i] + ([s[i]] + s[i + 1..])
  {
  }

  lemma {:induction false} RejoinsAtPoint(mantissa: string)
    ensures var dot := FirstOf(mantissa, {'.'});
            var whole, fraction := mantissa[..dot], if dot < |mantissa| then mantissa[dot + 1..] else "";
            (dot < |mantissa| ==> fraction != "") ==> mantissa == RenderMantissa(whole, fraction)
  {
    var dot := FirstOf(mantissa, {'.'});
    if dot < |mantissa| {
      SplitAt(mantissa, dot);
    }
  }

  lemma {:induction false} SplitMantissa(negative: bool, mantissa: string, exponent: int, g: Grammar)
    returns (whole: string, fraction: string)
    requires ParseMantissa(negative, mantissa, exponent, g).Success?
    ensures whole != "" && AllDigits(whole) && AllDigits(fraction)
    ensures |whole| > 1 ==> whole[0] != '0'
    ensures mantissa == RenderMantissa(whole, fraction)
  {
    var dot := FirstOf(mantissa, {'.'});
    whole := mantissa[..dot];
    fraction := if dot < |mantissa| then mantissa[dot + 1..] else "";
    RejoinsAtPoint(mantissa);
  }

  lemma {:induction false} SplitUnsigned(negative: bool, unsigned: string, g: Grammar) returns (n: Number)
    requires ParseExponent(unsigned, g).Success?
    requires ParseMantissa(negative, ParseExponent(unsigned, g).value.0, ParseExponent(unsigned, g).value.1, g).Success?
    ensures IsNumber(n) && n.negative == negative && RenderUnsigned(n) == unsigned
  {
    var mantissa, e := SplitExponent(unsigned, g);
    var whole, fraction := SplitMantissa(negative, mantissa, ParseExponent(unsigned, g).value.1, g);
    n := Number(negative, whole, fraction, e);
  }

  /** An accepted lexeme is a number text of RFC 8259. */
  lemma {:induction false} AcceptedIsNumber(lexeme: string, g: Grammar) returns (n: Number)
    requires Parse(lexeme, g).Success?
    ensures IsNumber(n) && Render(n) == lexeme
  {
    var negative := lexeme[0] == '-';
    var unsigned := if negative then lexeme[1..] else lexeme;
    n := SplitUnsigned(negative, unsigned, g);
  }

  ghost predicate IsNumberText(lexeme: string) {
    exists n :: IsNumber(n) && Render(n) == lexeme
  }

  lemma {:induction false} WellShaped(mantissa: string)
    requires var dot := FirstOf(mantissa, {'.'});
             var whole, fraction := mantissa[..dot], if dot < |mantissa| then mantissa[dot + 1..] else "";
             && whole != "" && AllDigits(whole) && AllDigits(fraction)
             && (dot < |mantissa| ==> fraction != "") && (|whole| > 1 ==> whole[0] != '0')
    ensures IsNumberText(mantissa)
  {
    var dot := FirstOf(mantissa, {'.'});
    var whole, fraction := mantissa[..dot], if dot < |mantissa| then mantissa[dot + 1..] else "";
    RejoinsAtPoint(mantissa);
    PartsAreText(whole, fraction);
  }

  lemma {:induction false} PartsAreText(whole: string, fraction: string)
    requires whole != "" && AllDigits(whole) && AllDigits(fraction) && (|whole| > 1 ==> whole[0] != '0')
    ensures IsNumberText(RenderMantissa(whole, fraction))
  {
    var n := Number(false, whole, fraction, NoExponent);
    PlainRendering(n);
    assert IsNumber(n) && Render(n) == RenderMantissa(whole, fraction);
  }

  /** A plain text, without sign or exponent mark, that is no number text is an invalid
      lexeme; the empty text is told apart. */
  lemma {:induction false} MalformedIsInvalid(lexeme: string, g: Grammar)
    requires !IsNumberText(lexeme) && |lexeme| <= g.maxLexemeBytes
    requires lexeme != "" ==> lexeme[0] != '-' && FirstOf(lexeme, EXPONENT_MARKS) == |lexeme|
    ensures Parse(lexeme, g) == Failure(if lexeme == "" then Empty else InvalidLexeme)
  {
    if lexeme != "" && lexeme[0] != '+' {
      UnmarkedExponent(lexeme, g);
      if ParseMantissa(false, lexeme, 0, g) != Failure(InvalidLexeme) {
        WellShaped(lexeme);
      }
    }
  }

  // ---------------------------------------------------------------------------------
  // Value of what is accepted
  // ---------------------------------------------------------------------------------

  lemma {:induction false} ZeroShifts(scale: int)
    ensures Shifted(0, scale) == 0.0
  {
    if scale >= 0 {
      ZeroScales(scale);
    }
  }

  lemma {:induction false} WholeValue(n: int)
    ensures ScaledValue(n, 0) == n as real
  {
  }

  /** What is left of `Assemble` after its checks: the coefficient raised to scale 0. */
  lemma {:induction false} RaisedValue(negative: bool, magnitude: nat, scale: int)
    ensures scale < 0 ==>
      ScaledValue(Signed(negative, magnitude * Pow10(-scale)), 0) == Shifted(Signed(negative, magnitude), scale)
  {
    if scale < 0 {
      WholeValue(Signed(negative, magnitude * Pow10(-scale)));
      SignedProduct(negative, magnitude, Pow10(-scale));
    }
  }

  lemma {:induction false} SignedProduct(negative: bool, m: int, p: int)
    ensures Signed(negative, m * p) == Signed(negative, m) * p
  {
  }

  lemma {:induction false} NormalizedValue(coefficient: i128, scale: u16, g: Grammar)
    requires Normalized(coefficient, scale, g).Success?
    ensures IsNormal(Normalized(coefficient, scale, g).value)
    ensures Value(Normalized(coefficient, scale, g).value) == ScaledValue(coefficient, scale)
  {
    StripKeepsValue(coefficient, scale);
  }

  lemma {:induction false} AssembledValue(negative: bool, whole: string, fraction: string, exponent: int, g: Grammar)
    requires AllDigits(whole + fraction)
    requires Assemble(negative, whole, fraction, exponent, g).Success?
    ensures var d := Assemble(negative, whole, fraction, exponent, g).value;
            && IsNormal(d)
            && Value(d) == Shifted(Signed(negative, NatOf(whole + fraction)), |fraction| - exponent)
  {
    var magnitude, scale := NatOf(whole + fraction), |fraction| - exponent;
    if magnitude == 0 {
      NormalizedValue(0, 0, g);
      ZeroShifts(scale);
      ZeroScales(0);
    } else if scale < 0 {
      NormalizedValue(Signed(negative, magnitude * Pow10(-scale)), 0, g);
      RaisedValue(negative, magnitude, scale);
    } else {
      NormalizedValue(Signed(negative, magnitude), scale, g);
    }
  }

  /** An accepted lexeme yields the normal decimal of exactly the lexeme's value. */
  lemma {:induction false} AcceptedValue(n: Number, g: Grammar)
    requires IsNumber(n)
    requires Parse(Render(n), g).Success?
    ensures IsNormal(Parse(Render(n), g).value)
    ensures Value(Parse(Render(n), g).value) == NumberValue(n)
  {
    NumberIsJudged(n, g);
    JudgedValue(n, g);
  }

  lemma {:induction false} JudgedValue(n: Number, g: Grammar)
    requires IsNumber(n)
    requires Judge(n, g).Success?
    ensures IsNormal(Judge(n, g).value)
    ensures Value(Judge(n, g).value) == NumberValue(n)
  {
    JudgedParts(n, g);
    ValueOfParts(n, g);
  }

  lemma {:induction false} ValueOfParts(n: Number, g: Grammar)
    requires IsNumber(n) && AllDigits(n.whole + n.fraction)
    requires Assemble(n.negative, n.whole, n.fraction, ExponentValue(n.exponent), g).Success?
    ensures var d := Assemble(n.negative, n.whole, n.fraction, ExponentValue(n.exponent), g).value;
            IsNormal(d) && Value(d) == NumberValue(n)
  {
    AssembledValue(n.negative, n.whole, n.fraction, ExponentValue(n.exponent), g);
  }

  lemma {:induction false} JudgedParts(n: Number, g: Grammar)
    requires IsNumber(n)
    requires Judge(n, g).Success?
    ensures AllDigits(n.whole + n.fraction)
    ensures Judge(n, g) == Assemble(n.negative, n.whole, n.fraction, ExponentValue(n.exponent), g)
  {
    AllDigitsConcat(n.whole, n.fraction);
    assert JudgeExponent(n.exponent, g) == Success(ExponentValue(n.exponent));
  }

  /** Two accepted lexemes parse to one decimal exactly when they have one value. */
  lemma {:induction false} EqualLexemes(m: Number, n: Number, g: Grammar, h: Grammar)
    requires IsNumber(m) && IsNumber(n)
    requires Parse(Render(m), g).Success? && Parse(Render(n), h).Success?
    ensures Parse(Render(m), g) == Parse(Render(n), h) <==> NumberValue(m) == NumberValue(n)
  {
    AcceptedValue(m, g);
    AcceptedValue(n, h);
    if NumberValue(m) == NumberValue(n) {
      NormalFormIsUnique(Parse(Render(m), g).value, Parse(Render(n), h).value);
    }
  }

  // ---------------------------------------------------------------------------------
  // Exactly which number texts are accepted
  // ---------------------------------------------------------------------------------

  ghost predicate FitsArithmetic(magnitude: nat, scale: int, g: Grammar) {
    && magnitude <= I128_MAX
    && (magnitude != 0 ==>
          && scale <= g.maxScale
          && (scale < 0 ==>
                && magnitude * Pow10(-scale) <= I128_MAX
                && DigitCount(magnitude * Pow10(-scale)) <= g.maxDigits))
  }

  ghost predicate FitsExponent(e: Exponent, g: Grammar)
    requires IsExponent(e)
  {
    e.Exponent? ==>
      && g.allowExponent
      && |e.digits| <= g.maxExponentDigits
      && I32_MIN <= ExponentValue(e) <= I32_MAX
      && Abs(ExponentValue(e)) <= g.maxExponentMagnitude
  }

  /** The limits a grammar puts on a number text, in terms of the text's own parts. */
  ghost predicate Fits(n: Number, g: Grammar)
    requires IsNumber(n)
  {
    AllDigitsConcat(n.whole, n.fraction);
    && |Render(n)| <= g.maxLexemeBytes
    && (n.negative ==> g.allowNegative)
    && FitsExponent(n.exponent, g)
    && |n.whole| + |n.fraction| <= g.maxDigits
    && FitsArithmetic(NatOf(n.whole + n.fraction), |n.fraction| - ExponentValue(n.exponent), g)
  }

  lemma {:induction false} FewerDigits(m: nat, n: nat)
    requires m <= n
    ensures DigitCount(m) <= DigitCount(n)
  {
    DigitCountBounds(n, DigitCount(n));
    DigitCountBounds(m, DigitCount(n));
  }

  lemma {:induction false} DigitsOfText(s: string)
    requires s != "" && AllDigits(s)
    ensures DigitCount(NatOf(s)) <= |s|
  {
    NatOfBound(s);
    DigitCountBounds(NatOf(s), |s|);
  }

  lemma {:induction false} NormalizedAccepts(coefficient: i128, scale: u16, g: Grammar)
    requires coefficient < 0 ==> g.allowNegative
    requires scale > 0 ==> DigitCount(Abs(coefficient)) <= g.maxDigits
    ensures Normalized(coefficient, scale, g).Success?
       <==> scale <= g.maxScale && DigitCount(Abs(coefficient)) <= g.maxDigits
  {
    StripKeepsValue(coefficient, scale);
    FewerDigits(Abs(Strip(coefficient, scale).coefficient), Abs(coefficient));
  }

  lemma {:induction false} ScaledAccepts(negative: bool, magnitude: nat, scale: int, g: Grammar)
    requires 0 < magnitude <= I128_MAX && DigitCount(magnitude) <= g.maxDigits && 0 <= scale
    requires negative ==> g.allowNegative
    ensures AssembleScaled(negative, magnitude, scale, g).Success? <==> scale <= g.maxScale
  {
    if scale <= U16_MAX {
      NormalizedAccepts(Signed(negative, magnitude), scale, g);
    }
  }

  lemma {:induction false} RaisedAccepts(negative: bool, magnitude: nat, scale: int, g: Grammar)
    requires 0 < magnitude <= I128_MAX && I32_MIN <= scale < 0
    requires negative ==> g.allowNegative
    ensures AssembleScaled(negative, magnitude, scale, g).Success? <==>
      magnitude * Pow10(-scale) <= I128_MAX && DigitCount(magnitude * Pow10(-scale)) <= g.maxDigits
  {
    var raised := magnitude * Pow10(-scale);
    if raised <= I128_MAX {
      NormalizedAccepts(Signed(negative, raised), 0, g);
    }
  }

  lemma {:induction false} AssembleAccepts(negative: bool, whole: string, fraction: string, exponent: int, g: Grammar)
    requires whole != "" && AllDigits(whole + fraction)
    requires negative ==> g.allowNegative
    requires I32_MIN <= exponent <= I32_MAX
    ensures Assemble(negative, whole, fraction, exponent, g).Success?
       <==> && |whole + fraction| <= g.maxDigits
            && FitsArithmetic(NatOf(whole + fraction), |fraction| - exponent, g)
  {
    var magnitude, scale := NatOf(whole + fraction), |fraction| - exponent;
    DigitsOfText(whole + fraction);
    if |whole + fraction| <= g.maxDigits && magnitude <= I128_MAX {
      if magnitude == 0 {
        NormalizedAccepts(0, 0, g);
      } else if scale < 0 {
        RaisedAccepts(negative, magnitude, scale, g);
      } else {
        ScaledAccepts(negative, magnitude, scale, g);
      }
    }
  }

  /** Why the arithmetic refuses: the coefficient or the scale does not fit its type, and
      otherwise the grammar's own limits. */
  ghost function ArithmeticRefusal(digits: nat, magnitude: nat, scale: int, g: Grammar): DecimalError {
    if digits > g.maxDigits then PrecisionExceeded
    else if magnitude > I128_MAX then CoefficientOverflow
    else if magnitude != 0 && !(I32_MIN <= scale <= U16_MAX) then ScaleOverflow
    else if magnitude != 0 && scale < 0 && magnitude * Pow10(-scale) > I128_MAX then CoefficientOverflow
    else PrecisionExceeded
  }

  lemma {:induction false} NormalizedRefusal(coefficient: i128, scale: u16, g: Grammar)
    requires coefficient < 0 ==> g.allowNegative
    requires Normalized(coefficient, scale, g).Failure?
    ensures Normalized(coefficient, scale, g).error == PrecisionExceeded
  {
  }

  lemma {:induction false} ScaledRefusal(negative: bool, magnitude: nat, scale: int, g: Grammar)
    requires 0 < magnitude <= I128_MAX && (negative ==> g.allowNegative)
    requires AssembleScaled(negative, magnitude, scale, g).Failure?
    ensures AssembleScaled(negative, magnitude, scale, g).error
         == if !(I32_MIN <= scale <= U16_MAX) then ScaleOverflow
            else if scale < 0 && magnitude * Pow10(-scale) > I128_MAX then CoefficientOverflow
            else PrecisionExceeded
  {
    if I32_MIN <= scale <= U16_MAX {
      var raised := if scale < 0 then magnitude * Pow10(-scale) else magnitude;
      if raised <= I128_MAX && Normalized(Signed(negative, raised), if scale < 0 then 0 else scale, g).Failure? {
        NormalizedRefusal(Signed(negative, raised), if scale < 0 then 0 else scale, g);
      }
    }
  }

  /** Once the sign and the exponent have passed, a refused number text is refused for
      what its digits and scale come to. */
  lemma {:induction false} AssembleRefusal(negative: bool, whole: string, fraction: string, exponent: int, g: Grammar)
    requires AllDigits(whole + fraction) && (negative ==> g.allowNegative)
    requires Assemble(negative, whole, fraction, exponent, g).Failure?
    ensures Assemble(negative, whole, fraction, exponent, g).error
         == ArithmeticRefusal(|whole| + |fraction|, NatOf(whole + fraction), |fraction| - exponent, g)
  {
    var magnitude := NatOf(whole + fraction);
    if |whole + fraction| <= g.maxDigits && magnitude <= I128_MAX {
      if magnitude == 0 {
        NormalizedRefusal(0, 0, g);
      } else {
        ScaledRefusal(negative, magnitude, |fraction| - exponent, g);
      }
    }
  }

  /** `parse` accepts a lexeme exactly when it is a number text within the limits. */
  lemma {:induction false} AcceptsExactly(n: Number, g: Grammar)
    requires IsNumber(n)
    ensures Parse(Render(n), g).Success? <==> Fits(n, g)
  {
    NumberIsJudged(n, g);
    JudgeAccepts(n, g);
  }

  lemma {:induction false} JudgeAccepts(n: Number, g: Grammar)
    requires IsNumber(n)
    ensures Judge(n, g).Success? <==> Fits(n, g)
  {
    JudgeReachesAssemble(n, g);
    if FitsExponent(n.exponent, g) && (n.negative ==> g.allowNegative) {
      ExponentAccepts(n.exponent, g);
      AssembleAccepts(n.negative, n.whole, n.fraction, ExponentValue(n.exponent), g);
    }
  }

  /** The checks before the arithmetic, and what is left to it. */
  lemma {:induction false} JudgeReachesAssemble(n: Number, g: Grammar)
    requires IsNumber(n)
    ensures AllDigits(n.whole + n.fraction)
    ensures Judge(n, g).Success? <==>
      && |Render(n)| <= g.maxLexemeBytes && (n.negative ==> g.allowNegative) && FitsExponent(n.exponent, g)
      && Assemble(n.negative, n.whole, n.fraction, ExponentValue(n.exponent), g).Success?
  {
    AllDigitsConcat(n.whole, n.fraction);
    ExponentAccepts(n.exponent, g);
  }

  lemma {:induction false} ExponentAccepts(e: Exponent, g: Grammar)
    requires IsExponent(e)
    ensures JudgeExponent(e, g).Success? <==> FitsExponent(e, g)
    ensures FitsExponent(e, g) ==>
      JudgeExponent(e, g) == Success(ExponentValue(e)) && I32_MIN <= ExponentValue(e) <= I32_MAX
  {
  }

  // ---------------------------------------------------------------------------------
  // Rendering and parsing back
  // ---------------------------------------------------------------------------------

  ghost function CanonicalNumber(d: Decimal): Number {
    var digits := Digits(Abs(d.coefficient));
    Number(d.coefficient < 0, WholePart(digits, d.scale), FractionPart(digits, d.scale), NoExponent)
  }

  ghost function WholePart(digits: string, scale: nat): string {
    if |digits| <= scale then "0" else digits[..|digits| - scale]
  }

  ghost function FractionPart(digits: string, scale: nat): string {
    if |digits| <= scale then Zeros(scale - |digits|) + digits else digits[|digits| - scale..]
  }

  lemma {:induction false} PointSplits(digits: string, scale: nat)
    requires digits != ""
    ensures RenderMantissa(WholePart(digits, scale), FractionPart(digits, scale)) == PlacePoint(digits, scale)
  {
    var whole, fraction := WholePart(digits, scale), FractionPart(digits, scale);
    if scale == 0 {
      assert fraction == "" && whole == digits;
    }
  }

  lemma {:induction false} PointParts(digits: string, scale: nat)
    requires digits != "" && AllDigits(digits)
    requires |digits| > 1 ==> digits[0] != '0'
    ensures var whole, fraction := WholePart(digits, scale), FractionPart(digits, scale);
            && whole != "" && AllDigits(whole) && AllDigits(fraction) && AllDigits(whole + fraction)
            && (|whole| > 1 ==> whole[0] != '0')
            && |fraction| == scale
            && NatOf(whole + fraction) == NatOf(digits)
            && |whole + fraction| == Max(|digits|, scale + 1)
  {
    var whole, fraction := WholePart(digits, scale), FractionPart(digits, scale);
    if |digits| <= scale {
      LeadingZerosVanish(scale - |digits| + 1, digits);
      assert whole + fraction == Zeros(scale - |digits| + 1) + digits;
    } else {
      assert whole + fraction == digits;
    }
  }

  lemma {:induction false} CanonicalParts(d: Decimal)
    ensures var n := CanonicalNumber(d);
            && IsNumber(n)
            && |n.fraction| == d.scale
            && AllDigits(n.whole + n.fraction)
            && NatOf(n.whole + n.fraction) == Abs(d.coefficient)
            && |n.whole + n.fraction| == Max(DigitCount(Abs(d.coefficient)), d.scale + 1)
  {
    DigitsReadBack(Abs(d.coefficient));
    PointParts(Digits(Abs(d.coefficient)), d.scale);
  }

  lemma {:induction false} CanonicalIsRendering(d: Decimal)
    ensures Render(CanonicalNumber(d)) == Canonical(d)
  {
    var digits := Digits(Abs(d.coefficient));
    DigitsReadBack(Abs(d.coefficient));
    PointSplits(digits, d.scale);
    assert RenderUnsigned(CanonicalNumber(d)) == PlacePoint(digits, d.scale);
  }

  function Max(a: int, b: int): int {
    if a < b then b else a
  }

  /** The grammars wide enough to read a decimal's own rendering back. */
  ghost predicate HasRoom(d: Decimal, g: Grammar) {
    && d.coefficient != I128_MIN
    && (d.coefficient < 0 ==> g.allowNegative)
    && d.scale <= g.maxScale
    && |Canonical(d)| <= g.maxLexemeBytes
    && Max(DigitCount(Abs(d.coefficient)), d.scale + 1) <= g.maxDigits
  }

  lemma {:induction false} CanonicalValue(d: Decimal)
    ensures IsNumber(CanonicalNumber(d))
    ensures NumberValue(CanonicalNumber(d)) == Value(d)
  {
    CanonicalParts(d);
  }

  lemma {:induction false} CanonicalFits(d: Decimal, g: Grammar)
    requires IsNormal(d)
    ensures IsNumber(CanonicalNumber(d))
    ensures Fits(CanonicalNumber(d), g) <==> HasRoom(d, g)
  {
    CanonicalParts(d);
    CanonicalIsRendering(d);
  }

  /** Printing then parsing is the identity exactly under the grammars with room; the one
      coefficient that never comes back is the most negative one. */
  lemma {:induction false} RoundTrip(d: Decimal, g: Grammar)
    requires IsNormal(d)
    ensures Parse(Canonical(d), g) == Success(d) <==> HasRoom(d, g)
    ensures Parse(Canonical(d), g).Success? ==> Parse(Canonical(d), g) == Success(d)
  {
    var n := CanonicalNumber(d);
    CanonicalIsRendering(d);
    CanonicalFits(d, g);
    AcceptsExactly(n, g);
    if Parse(Canonical(d), g).Success? {
      AcceptedValue(n, g);
      CanonicalValue(d);
      NormalFormIsUnique(Parse(Canonical(d), g).value, d);
    }
  }

  lemma {:induction false} MantissaIsInjective(w: string, f: string, x: string, y: string)
    requires AllDigits(w) && AllDigits(x)
    requires RenderMantissa(w, f) == RenderMantissa(x, y)
    ensures w == x && f == y
  {
    var m := RenderMantissa(w, f);
    FirstOfConcat(w, if f == "" then "" else "." + f, {'.'});
    FirstOfConcat(x, if y == "" then "" else "." + y, {'.'});
    assert w == m[..|w|] && x == m[..|x|];
    assert f != "" ==> f == m[|w| + 1..];
    assert y != "" ==> y == m[|x| + 1..];
  }

  lemma {:induction false} PlainRendering(n: Number)
    requires IsNumber(n) && n.exponent.NoExponent?
    ensures var m := RenderMantissa(n.whole, n.fraction);
            Render(n) == (if n.negative then "-" + m else m) && m != "" && m[0] != '-'
  {
    assert RenderUnsigned(n) == RenderMantissa(n.whole, n.fraction);
    assert IsDigit(n.whole[0]);
  }

  lemma {:induction false} RenderIsInjective(m: Number, n: Number)
    requires IsNumber(m) && IsNumber(n) && m.exponent.NoExponent? && n.exponent.NoExponent?
    requires Render(m) == Render(n)
    ensures m == n
  {
    PlainRendering(m);
    PlainRendering(n);
    assert m.negative == (Render(m)[0] == '-') && n.negative == (Render(n)[0] == '-');
    var x, y := RenderMantissa(m.whole, m.fraction), RenderMantissa(n.whole, n.fraction);
    assert x == Render(m)[if m.negative then 1 else 0..] && y == Render(n)[if n.negative then 1 else 0..];
    MantissaIsInjective(m.whole, m.fraction, n.whole, n.fraction);
  }

  /** Distinct values have distinct renderings. */
  lemma {:induction false} CanonicalIsInjective(a: Decimal, b: Decimal)
    requires IsNormal(a) && IsNormal(b)
    requires Canonical(a) == Canonical(b)
    ensures a == b
  {
    CanonicalIsRendering(a);
    CanonicalIsRendering(b);
    CanonicalValue(a);
    CanonicalValue(b);
    RenderIsInjective(CanonicalNumber(a), CanonicalNumber(b));
    NormalFormIsUnique(a, b);
  }

  /** A rendering is made of digits, a point and a sign: no separator byte occurs in it. */
  lemma {:induction false} CanonicalCharacters(d: Decimal)
    ensures forall i :: 0 <= i < |Canonical(d)| ==>
      IsDigit(Canonical(d)[i]) || Canonical(d)[i] == '.' || Canonical(d)[i] == '-'
  {
    var n := CanonicalNumber(d);
    CanonicalParts(d);
    CanonicalIsRendering(d);
    MantissaCharacters(n.whole, n.fraction);
    assert RenderUnsigned(n) == RenderMantissa(n.whole, n.fraction);
  }

  // ---------------------------------------------------------------------------------
  // What a grammar guarantees of anything it accepts
  // ---------------------------------------------------------------------------------

  lemma {:induction false} NormalizedShape(coefficient: i128, scale: u16, g: Grammar)
    requires Normalized(coefficient, scale, g).Success?
    ensures var d := Normalized(coefficient, scale, g).value;
            IsNormal(d) && d.scale <= g.maxScale && (!g.allowNegative ==> 0 <= d.coefficient)
  {
    StripKeepsValue(coefficient, scale);
  }

  lemma {:induction false} AssembledShape(negative: bool, whole: string, fraction: string, exponent: int, g: Grammar)
    requires AllDigits(whole + fraction)
    requires Assemble(negative, whole, fraction, exponent, g).Success?
    ensures var d := Assemble(negative, whole, fraction, exponent, g).value;
            IsNormal(d) && d.scale <= g.maxScale && (!g.allowNegative ==> 0 <= d.coefficient)
  {
    var magnitude, scale := NatOf(whole + fraction), |fraction| - exponent;
    if magnitude == 0 {
      NormalizedShape(0, 0, g);
    } else if scale < 0 {
      NormalizedShape(Signed(negative, magnitude * Pow10(-scale)), 0, g);
    } else {
      NormalizedShape(Signed(negative, magnitude), scale, g);
    }
  }

  /** Anything parsed is normal, within the scale limit, and of the allowed sign. */
  lemma {:induction false} ParsedShape(lexeme: string, g: Grammar)
    requires Parse(lexeme, g).Success?
    ensures var d := Parse(lexeme, g).value;
            IsNormal(d) && d.scale <= g.maxScale && (!g.allowNegative ==> 0 <= d.coefficient)
  {
    var n := AcceptedIsNumber(lexeme, g);
    NumberIsJudged(n, g);
    AllDigitsConcat(n.whole, n.fraction);
    AssembledShape(n.negative, n.whole, n.fraction, JudgeExponent(n.exponent, g).value, g);
  }
}
