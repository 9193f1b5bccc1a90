/**
 * Decimal numerals: the parts of Rust's standard library the core leans on.
 *  - `str::parse::<u64>` and `str::parse::<f64>` on ASCII text, with exact
 *    (`real`) values instead of IEEE-754 rounding;
 *  - `Display` for `u64` and `f64`, the latter as the exact decimal expansion
 *    of a real number;
 *  - the numeral shapes `[+-]?\d+(\.\d+)?` and `\d+(\.\d+)?` of the location
 *    patterns, as greedy scanners.
 */
module Numbers {
  import opened Ascii
  import opened Outcomes

  function Pow10(n: nat): (p: nat)
    ensures p >= 1
  {
    if n == 0 then 1 else 10 * Pow10(n - 1)
  }

  function DigitValue(c: char): (d: nat)
    requires IsDigit(c)
    ensures d < 10
  {
    c as int - '0' as int
  }

  function DigitChar(d: nat): (c: char)
    requires d < 10
    ensures IsDigit(c) && DigitValue(c) == d
  {
    ('0' as int + d) as char
  }

  lemma {:induction false} Pow10Monotone(a: nat, b: nat)
    requires a <= b
    ensures Pow10(a) <= Pow10(b)
    decreases b
  {
    if a < b {
      Pow10Monotone(a, b - 1);
    }
  }

  /** The value of a string of decimal digits, most significant digit first. */
  function DigitsValue(ds: string): (v: nat)
    requires AllDigits(ds)
    ensures v < Pow10(|ds|)
  {
    if ds == [] then 0 else 10 * DigitsValue(ds[..|ds| - 1]) + DigitValue(ds[|ds| - 1])
  }

  /** `n` written with exactly `width` digits, zero-padded on the left. */
  function FixedDigits(n: nat, width: nat): (ds: string)
    requires n < Pow10(width)
    ensures |ds| == width && AllDigits(ds)
    ensures DigitsValue(ds) == n
  {
    if width == 0 then []
    else
      var ds := FixedDigits(n / 10, width - 1) + [DigitChar(n % 10)];
      assert ds[..width - 1] == FixedDigits(n / 10, width - 1);
      ds
  }

  /** The number of digits `n` needs. */
  function NumDigits(n: nat): (w: nat)
    ensures 1 <= w && n < Pow10(w)
  {
    if n < 10 then 1 else 1 + NumDigits(n / 10)
  }

  /** `Display` for unsigned integers. */
  function NatText(n: nat): (t: string)
    ensures |t| > 0 && AllDigits(t) && DigitsValue(t) == n
  {
    FixedDigits(n, NumDigits(n))
  }

  // ---------------------------------------------------------------------------
  // Integers

  const U64Max: nat := 0xFFFF_FFFF_FFFF_FFFF

  /**
   * `str::parse::<u64>`: an optional `+` and at least one digit, nothing else;
   * a value above `u64::MAX` is an overflow error.
   */
  function ParseU64(s: string): (r: Option<nat>)
    ensures r.Some? ==> r.value <= U64Max
  {
    var ds := if |s| > 0 && s[0] == '+' then s[1..] else s;
    if ds == [] || !AllDigits(ds) || DigitsValue(ds) > U64Max then None
    else Some(DigitsValue(ds))
  }

  /** Reading back the decimal text of a number gives that number, up to `u64::MAX`. */
  lemma ParseU64NatText(n: nat)
    ensures ParseU64(NatText(n)) == if n <= U64Max then Some(n) else None
  {
    var t := NatText(n);
    assert IsDigit(t[0]);
  }

  /** A `+` in front of digits is read over. */
  lemma ParseU64PlusSign(t: string)
    requires |t| > 0 && AllDigits(t)
    ensures ParseU64("+" + t) == ParseU64(t)
  {
    assert ("+" + t)[1..] == t;
    assert IsDigit(t[0]);
  }

  // ---------------------------------------------------------------------------
  // Floating point numbers

  predicate IsSign(c: char) { c == '+' || c == '-' }

  /** Length of the optional sign that `s` starts with. */
  function SignLen(s: string): (k: nat)
    ensures k <= 1 && k <= |s|
    ensures k == 1 <==> |s| > 0 && IsSign(s[0])
  {
    if |s| > 0 && IsSign(s[0]) then 1 else 0
  }

  /** `v * 10^n` */
  function ScaleUp(v: real, n: nat): (r: real)
    ensures v >= 0.0 ==> r >= 0.0
  {
    if n == 0 then v else ScaleUp(v, n - 1) * 10.0
  }

  /** `v / 10^n` */
  function ScaleDown(v: real, n: nat): (r: real)
    ensures v >= 0.0 ==> r >= 0.0
  {
    if n == 0 then v else ScaleDown(v, n - 1) / 10.0
  }

  /** `v * 10^e` */
  function Scale(v: real, e: int): real
  {
    if e >= 0 then ScaleUp(v, e) else ScaleDown(v, -e)
  }

  /** The value of the digits after a decimal point: `0.ds`. */
  function FracValue(ds: string): (v: real)
    requires AllDigits(ds)
    ensures 0.0 <= v
  {
    if ds == [] then 0.0 else (DigitValue(ds[0]) as real + FracValue(ds[1..])) / 10.0
  }

  /** `whole.frac` as a real number. */
  function Mantissa(whole: string, frac: string): real
    requires AllDigits(whole) && AllDigits(frac)
  {
    DigitsValue(whole) as real + FracValue(frac)
  }

  /** The optional exponent `[eE][+-]?\d+` that ends a float; an empty text is exponent 0. */
  function ParseExponent(s: string): (r: Option<int>)
    ensures s == [] ==> r == Some(0)
  {
    if s == [] then Some(0)
    else if s[0] != 'e' && s[0] != 'E' then None
    else
      var t := s[1..];
      var ds := t[SignLen(t)..];
      if ds == [] || !AllDigits(ds) then None
      else
        var e: int := DigitsValue(ds);
        Some(if SignLen(t) == 1 && t[0] == '-' then -e else e)
  }

  /**
   * Splits the unsigned part of a float into its integer digits, its fraction
   * digits (after a `.`) and the rest of the text.
   */
  function MantissaParts(body: string): (parts: (string, string, string))
    ensures AllDigits(parts.0) && AllDigits(parts.1)
    ensures |parts.0| + |parts.1| <= |body|
  {
    var w := DigitsEnd(body, 0);
    DigitRun(body, 0);
    assert body[..w] == body[0..w];
    if w < |body| && body[w] == '.' then
      var f := DigitsEnd(body, w + 1);
      DigitRun(body, w + 1);
      (body[..w], body[w + 1..f], body[f..])
    else
      (body[..w], "", body[w..])
  }

  /**
   * `str::parse::<f64>` on ASCII text, with the exact value:
   * `[+-]? (\d+ | \d+\.\d* | \d*\.\d+) ([eE][+-]?\d+)?`.
   */
  function ParseFloat(s: string): (r: Option<real>)
    ensures r.Some? ==> |s| > 0
    ensures r.Some? && r.value < 0.0 ==> s[0] == '-'
    ensures r.Some? && s[0] == '-' ==> r.value <= 0.0
  {
    var (whole, frac, rest) := MantissaParts(s[SignLen(s)..]);
    if |whole| + |frac| == 0 then None
    else
      match ParseExponent(rest)
      case None => None
      case Some(e) =>
        var v := Scale(Mantissa(whole, frac), e);
        Some(if SignLen(s) == 1 && s[0] == '-' then -v else v)
  }

  // ---------------------------------------------------------------------------
  // The numeral shapes of the location patterns

  /** End of the `[+-]?\d+` that starts at position `i`, or `i` when none starts there. */
  function SignedIntEnd(s: string, i: nat): (j: nat)
    requires i <= |s|
    ensures i <= j <= |s|
  {
    var k := if i < |s| && IsSign(s[i]) then i + 1 else i;
    var d := DigitsEnd(s, k);
    if d == k then i else d
  }

  /** End of the `\.\d+` that starts at position `i`, or `i` when none starts there. */
  function FracEnd(s: string, i: nat): (j: nat)
    requires i <= |s|
    ensures i <= j <= |s| && j != i + 1
  {
    if i < |s| && s[i] == '.' && DigitsEnd(s, i + 1) > i + 1 then DigitsEnd(s, i + 1) else i
  }

  /** End of the greedy `[+-]?\d+(\.\d+)?` that starts at position `i`, or `i` when none starts there. */
  function DecimalEnd(s: string, i: nat): (j: nat)
    requires i <= |s|
    ensures i <= j <= |s|
  {
    var n := SignedIntEnd(s, i);
    if n == i then i else FracEnd(s, n)
  }

  /** End of the greedy `\d+(\.\d+)?` that starts at position `i`, or `i` when none starts there. */
  function UnsignedEnd(s: string, i: nat): (j: nat)
    requires i <= |s|
    ensures i <= j <= |s|
  {
    var d := DigitsEnd(s, i);
    if d == i then i else FracEnd(s, d)
  }

  /** `s` is entirely `[+-]?\d+(\.\d+)?`. */
  predicate IsDecimalText(s: string)
  {
    |s| > 0 && DecimalEnd(s, 0) == |s|
  }

  /** `s` is entirely `\d+(\.\d+)?`. */
  predicate IsUnsignedText(s: string)
  {
    |s| > 0 && UnsignedEnd(s, 0) == |s|
  }

  /** The decimal numeral with the given sign, integer digits and fraction digits. */
  function DecimalText(sign: string, whole: string, frac: string): string
  {
    sign + whole + (if frac == [] then "" else "." + frac)
  }

  predicate ValidParts(sign: string, whole: string, frac: string)
  {
    (sign == "" || sign == "+" || sign == "-") && |whole| > 0 && AllDigits(whole) && AllDigits(frac)
  }

  /** The value of a numeral built from its parts. */
  function PartsValue(sign: string, whole: string, frac: string): real
    requires ValidParts(sign, whole, frac)
  {
    if sign == "-" then -Mantissa(whole, frac) else Mantissa(whole, frac)
  }

  /** The three parts of a numeral of shape `[+-]?\d+(\.\d+)?`. */
  function SignPart(s: string): string
  {
    s[..SignLen(s)]
  }

  function WholePart(s: string): string
    requires IsDecimalText(s)
  {
    s[SignLen(s)..SignedIntEnd(s, 0)]
  }

  function FracPart(s: string): string
    requires IsDecimalText(s)
  {
    if SignedIntEnd(s, 0) < |s| then s[SignedIntEnd(s, 0) + 1..] else []
  }

  /** Whether a numeral has a fractional part. */
  predicate HasFraction(s: string)
  {
    SignedIntEnd(s, 0) < |s|
  }

  /** The characters a numeral `[+-]?\d+(\.\d+)?` is written with. */
  predicate IsNumeralChar(c: char) { IsDigit(c) || IsSign(c) || c == '.' }

  /** A numeral is written with digits, a sign and a point only, and it ends with a digit. */
  lemma NumeralChars(s: string)
    requires IsDecimalText(s)
    ensures forall i | 0 <= i < |s| :: IsNumeralChar(s[i])
    ensures IsDigit(s[|s| - 1])
  {
    var k := SignLen(s);
    var n := SignedIntEnd(s, 0);
    forall i | 0 <= i < |s|
      ensures IsNumeralChar(s[i])
    {
      if k <= i < n {
        assert DigitAt(s, i);
      } else if n + 1 <= i {
        assert FracEnd(s, n) == |s|;
        assert DigitAt(s, i);
      }
    }
    if n < |s| {
      assert FracEnd(s, n) == |s|;
    }
    assert DigitAt(s, |s| - 1);
  }

  /** A numeral starts with a sign or a digit. */
  lemma NumeralStart(s: string)
    requires IsDecimalText(s)
    ensures IsSign(s[0]) || IsDigit(s[0])
  {
  }

  /** A sign and integer digits written at position `i`, and not followed by a digit, are scanned as written. */
  lemma SignedIntPartsAt(s: string, i: nat, sign: string, whole: string)
    requires (sign == "" || sign == "+" || sign == "-") && |whole| > 0 && AllDigits(whole)
    requires PieceAt(s, i, sign + whole)
    requires i + |sign| + |whole| < |s| ==> !IsDigit(s[i + |sign| + |whole|])
    ensures i + |sign| < |s| && !IsSign(s[i + |sign|])
    ensures sign != "" ==> s[i] == sign[0]
    ensures DigitsEnd(s, i + |sign|) == i + |sign| + |whole|
    ensures SignedIntEnd(s, i) == i + |sign| + |whole|
  {
    SplitPiece(s, i, sign, whole);
    PieceChar(s, i + |sign|, whole, 0);
    if sign != "" {
      PieceChar(s, i, sign, 0);
    }
    DigitsPiece(s, i + |sign|, whole);
    DigitsEndOf(s, i + |sign|, i + |sign| + |whole|);
  }

  /** A point and fraction digits written at position `i`, and not followed by a digit, are scanned as written. */
  lemma FractionAt(s: string, i: nat, frac: string)
    requires |frac| > 0 && AllDigits(frac) && PieceAt(s, i, "." + frac)
    requires i + 1 + |frac| < |s| ==> !IsDigit(s[i + 1 + |frac|])
    ensures s[i] == '.' && FracEnd(s, i) == i + 1 + |frac|
  {
    SplitPiece(s, i, ".", frac);
    PieceChar(s, i, ".", 0);
    DigitsPiece(s, i + 1, frac);
    DigitsEndOf(s, i + 1, i + 1 + |frac|);
  }

  /**
   * A numeral written at position `i` of `s`, and not followed by a digit, is
   * scanned as written: its integer digits end where they were written, and so
   * does its fraction.
   */
  lemma NumeralAt(s: string, i: nat, sign: string, whole: string, frac: string)
    requires ValidParts(sign, whole, frac) && PieceAt(s, i, DecimalText(sign, whole, frac))
    requires i + |DecimalText(sign, whole, frac)| < |s| ==> !IsDigit(s[i + |DecimalText(sign, whole, frac)|])
    ensures i + |sign| < |s| && !IsSign(s[i + |sign|])
    ensures sign != "" ==> s[i] == sign[0]
    ensures DigitsEnd(s, i + |sign|) == i + |sign| + |whole|
    ensures SignedIntEnd(s, i) == i + |sign| + |whole|
    ensures frac != [] ==> FracEnd(s, i + |sign| + |whole|) == i + |DecimalText(sign, whole, frac)|
  {
    var rest: string := if frac == [] then "" else "." + frac;
    var n := i + |sign| + |whole|;
    SplitPiece(s, i, sign + whole, rest);
    if frac != [] {
      FractionAt(s, n, frac);
    }
    SignedIntPartsAt(s, i, sign, whole);
  }

  /** Every numeral built from valid parts has the shape `[+-]?\d+(\.\d+)?`. */
  lemma DecimalTextShape(sign: string, whole: string, frac: string)
    requires ValidParts(sign, whole, frac)
    ensures SignLen(DecimalText(sign, whole, frac)) == |sign|
    ensures SignedIntEnd(DecimalText(sign, whole, frac), 0) == |sign| + |whole|
    ensures IsDecimalText(DecimalText(sign, whole, frac))
    ensures HasFraction(DecimalText(sign, whole, frac)) <==> frac != []
  {
    var t := DecimalText(sign, whole, frac);
    WholePiece(t);
    NumeralAt(t, 0, sign, whole, frac);
  }

  /** The parts of a numeral built from valid parts are those parts. */
  lemma DecimalTextPartsOf(sign: string, whole: string, frac: string)
    requires ValidParts(sign, whole, frac)
    ensures IsDecimalText(DecimalText(sign, whole, frac))
    ensures SignPart(DecimalText(sign, whole, frac)) == sign
    ensures WholePart(DecimalText(sign, whole, frac)) == whole
    ensures FracPart(DecimalText(sign, whole, frac)) == frac
  {
    DecimalTextShape(sign, whole, frac);
    var s := DecimalText(sign, whole, frac);
    var n := |sign| + |whole|;
    assert s[..|sign|] == sign;
    assert s[|sign|..n] == whole;
    if frac != [] {
      assert s[n + 1..] == frac;
    }
  }

  /** A numeral without a sign has the shape `\d+(\.\d+)?`. */
  lemma UnsignedTextShape(whole: string, frac: string)
    requires ValidParts("", whole, frac)
    ensures IsUnsignedText(DecimalText("", whole, frac))
  {
    var t := DecimalText("", whole, frac);
    WholePiece(t);
    NumeralAt(t, 0, "", whole, frac);
  }

  /** A text of the pattern's shape is the numeral of its parts. */
  lemma DecimalTextParts(s: string)
    requires IsDecimalText(s)
    ensures ValidParts(SignPart(s), WholePart(s), FracPart(s))
    ensures s == DecimalText(SignPart(s), WholePart(s), FracPart(s))
  {
    var k := SignLen(s);
    var n := SignedIntEnd(s, 0);
    DigitRun(s, k);
    if n < |s| {
      assert FracEnd(s, n) == |s|;
      DigitRun(s, n + 1);
      assert s[n + 1..] == s[n + 1..DigitsEnd(s, n + 1)];
      assert s == s[..k] + s[k..n] + ("." + s[n + 1..]);
    } else {
      assert s == s[..k] + s[k..n];
    }
  }

  /** A run of fraction digits in the text that ends within a piece ends at the same place in the piece. */
  lemma FracEndWithin(s: string, i: nat, x: string, p: nat)
    requires PieceAt(s, i, x) && p <= |x| && FracEnd(s, i + p) <= i + |x|
    ensures FracEnd(x, p) == FracEnd(s, i + p) - i
  {
    if p < |x| {
      PieceChar(s, i, x, p);
      if x[p] == '.' {
        if p + 1 < |x| {
          PieceChar(s, i, x, p + 1);
        }
        if FracEnd(s, i + p) > i + p {
          DigitsEndWithin(s, i, x, p + 1);
        }
      }
    }
  }

  /** A signed integer in the text that ends within a piece ends at the same place in the piece. */
  lemma SignedIntEndWithin(s: string, i: nat, x: string, p: nat)
    requires PieceAt(s, i, x) && p <= |x| && SignedIntEnd(s, i + p) <= i + |x|
    ensures SignedIntEnd(x, p) == SignedIntEnd(s, i + p) - i
  {
    if p < |x| {
      PieceChar(s, i, x, p);
      var k := if IsSign(x[p]) then p + 1 else p;
      DigitsEndWithin(s, i, x, k);
    }
  }

  /** The greedy `[+-]?\d+(\.\d+)?` that starts at position `i` is a numeral of the pattern's shape. */
  lemma DecimalAtIsText(s: string, i: nat)
    requires i <= |s| && DecimalEnd(s, i) > i
    ensures IsDecimalText(s[i..DecimalEnd(s, i)])
  {
    var j := DecimalEnd(s, i);
    var x := s[i..j];
    SlicePiece(s, i, j);
    SignedIntEndWithin(s, i, x, 0);
    FracEndWithin(s, i, x, SignedIntEnd(s, i) - i);
  }

  /** The `[+-]?\d+` that starts at position `i` is a numeral without a fraction. */
  lemma SignedIntAtIsText(s: string, i: nat)
    requires i <= |s| && SignedIntEnd(s, i) > i
    ensures IsDecimalText(s[i..SignedIntEnd(s, i)]) && !HasFraction(s[i..SignedIntEnd(s, i)])
  {
    var n := SignedIntEnd(s, i);
    var x := s[i..n];
    SlicePiece(s, i, n);
    SignedIntEndWithin(s, i, x, 0);
  }

  /** The greedy `\d+(\.\d+)?` that starts at position `i` is an unsigned numeral. */
  lemma UnsignedAt(s: string, i: nat)
    requires i <= |s| && UnsignedEnd(s, i) > i
    ensures IsUnsignedText(s[i..UnsignedEnd(s, i)])
  {
    var j := UnsignedEnd(s, i);
    var x := s[i..j];
    SlicePiece(s, i, j);
    DigitsEndWithin(s, i, x, 0);
    FracEndWithin(s, i, x, DigitsEnd(s, i) - i);
  }

  /** A numeral written at position `i`, and not followed by a digit, is scanned as written. */
  lemma DecimalTextAt(s: string, i: nat, t: string)
    requires IsDecimalText(t) && PieceAt(s, i, t)
    requires i + |t| < |s| ==> !IsDigit(s[i + |t|])
    ensures i < SignedIntEnd(s, i) <= i + |t|
    ensures HasFraction(t) ==> DecimalEnd(s, i) == i + |t|
    ensures !HasFraction(t) ==> SignedIntEnd(s, i) == i + |t|
  {
    var k := SignLen(t);
    var n := SignedIntEnd(t, 0);
    PieceChar(s, i, t, 0);
    DigitsEndIn(s, i, t, k);
    assert DigitsEnd(s, i + |t|) == i + |t|;
    if n < |t| {
      PieceChar(s, i, t, n);
      DigitsEndIn(s, i, t, n + 1);
    }
  }

  /** An unsigned numeral written at position `i`, and followed by neither a digit nor a `.`, is scanned as written. */
  lemma UnsignedTextAt(s: string, i: nat, u: string)
    requires IsUnsignedText(u) && PieceAt(s, i, u)
    requires i + |u| < |s| ==> !IsDigit(s[i + |u|]) && s[i + |u|] != '.'
    ensures UnsignedEnd(s, i) == i + |u|
  {
    var d := DigitsEnd(u, 0);
    DigitsEndIn(s, i, u, 0);
    assert DigitsEnd(s, i + |u|) == i + |u|;
    if d < |u| {
      PieceChar(s, i, u, d);
      DigitsEndIn(s, i, u, d + 1);
    }
  }

  /** The integer and fraction digits of an unsigned numeral are its parts. */
  lemma MantissaPartsOf(whole: string, frac: string)
    requires ValidParts("", whole, frac)
    ensures MantissaParts(DecimalText("", whole, frac)) == (whole, frac, "")
  {
    var body := DecimalText("", whole, frac);
    WholePiece(body);
    NumeralAt(body, 0, "", whole, frac);
    assert body[..|whole|] == whole;
    if frac != [] {
      assert body[|whole|] == '.';
      assert DigitsEnd(body, |whole| + 1) == |body|;
      assert body[|whole| + 1..|body|] == frac;
      assert body[|body|..] == [];
    } else {
      assert body[|whole|..] == [];
    }
  }

  /** `str::parse::<f64>` reads a numeral of shape `[+-]?\d+(\.\d+)?` as its exact value. */
  lemma ParseFloatDecimal(sign: string, whole: string, frac: string)
    requires ValidParts(sign, whole, frac)
    ensures ParseFloat(DecimalText(sign, whole, frac)) == Some(PartsValue(sign, whole, frac))
  {
    var s := DecimalText(sign, whole, frac);
    assert SignLen(s) == |sign| && s[|sign|..] == DecimalText("", whole, frac) by {
      DecimalTextShape(sign, whole, frac);
    }
    assert MantissaParts(s[SignLen(s)..]) == (whole, frac, "") by {
      MantissaPartsOf(whole, frac);
    }
    assert (SignLen(s) == 1 && s[0] == '-') == (sign == "-") by {
      if sign != "" {
        assert s[0] == sign[0];
      }
    }
    ParseFloatWithoutExponent(s, whole, frac);
  }

  /** A float without an exponent is its mantissa, negated after a `-`. */
  lemma ParseFloatWithoutExponent(s: string, whole: string, frac: string)
    requires |whole| > 0
    requires MantissaParts(s[SignLen(s)..]) == (whole, frac, "")
    ensures ParseFloat(s) == Some(if SignLen(s) == 1 && s[0] == '-' then -Mantissa(whole, frac) else Mantissa(whole, frac))
  {
    assert Scale(Mantissa(whole, frac), 0) == Mantissa(whole, frac);
  }

  /** Every numeral of the location patterns parses as a float. */
  lemma DecimalTextParses(s: string)
    requires IsDecimalText(s)
    ensures ValidParts(SignPart(s), WholePart(s), FracPart(s))
    ensures ParseFloat(s) == Some(PartsValue(SignPart(s), WholePart(s), FracPart(s)))
  {
    DecimalTextParts(s);
    ParseFloatDecimal(SignPart(s), WholePart(s), FracPart(s));
  }

  /** An unsigned numeral is also a signed one, with no sign. */
  lemma UnsignedIsDecimal(s: string)
    requires IsUnsignedText(s)
    ensures IsDecimalText(s) && SignPart(s) == ""
  {
    assert !IsSign(s[0]);
    assert SignedIntEnd(s, 0) == DigitsEnd(s, 0);
  }

  // ---------------------------------------------------------------------------
  // Display for f64

  /** No finite `f64` has more than 1074 decimal places. */
  const MaxPlaces: nat := 1074

  predicate IsInteger(y: real) { y.Floor as real == y }

  /** `x` can be written with `n` decimal places. */
  predicate HasPlaces(x: real, n: nat) { IsInteger(ScaleUp(x, n)) }

  /** The fewest decimal places, from `from` on, that `x` can be written with (at most MaxPlaces). */
  function Places(x: real, from: nat): (m: nat)
    requires from <= MaxPlaces
    decreases MaxPlaces - from
    ensures from <= m <= MaxPlaces
    ensures forall k | from <= k < m :: !HasPlaces(x, k)
    ensures m < MaxPlaces ==> HasPlaces(x, m)
  {
    if from == MaxPlaces || HasPlaces(x, from) then from else Places(x, from + 1)
  }

  /** `x` has a finite decimal expansion no longer than those of the `f64` values. */
  predicate IsShortDecimal(x: real)
  {
    HasPlaces(x, Places(x, 0))
  }

  lemma ShortDecimalIntro(x: real, n: nat)
    requires n <= MaxPlaces && HasPlaces(x, n)
    ensures IsShortDecimal(x)
  {
  }

  function Abs(x: real): (a: real)
    ensures a >= 0.0 && (a == x || a == -x)
  {
    if x < 0.0 then -x else x
  }

  function Max(a: nat, b: nat): nat { if a < b then b else a }

  /** Cutting a digit string at `k` gives two digit strings that join back to it. */
  lemma DigitsSplit(s: string, k: nat)
    requires AllDigits(s) && k <= |s|
    ensures AllDigits(s[..k]) && AllDigits(s[k..]) && s[..k] + s[k..] == s
  {
    DigitsSlice(s, 0, k);
    DigitsSlice(s, k, |s|);
    assert s[..k] == s[0..k] && s[k..] == s[k..|s|];
  }

  /**
   * The sign, integer digits and fraction digits of `n / 10^m`: the digits
   * of `n`, written with at least `m + 1` of them, split before the last `m`.
   */
  function PlaceParts(negative: bool, n: nat, m: nat): (parts: (string, string, string))
    ensures ValidParts(parts.0, parts.1, parts.2)
    ensures parts.0 == "-" <==> negative
    ensures |parts.2| == m && DigitsValue(parts.1 + parts.2) == n
  {
    var width := Max(NumDigits(n), m + 1);
    Pow10Monotone(NumDigits(n), width);
    var digits := FixedDigits(n, width);
    var k := width - m;
    DigitsSplit(digits, k);
    (if negative then "-" else "", digits[..k], digits[k..])
  }

  /**
   * The sign, the integer digits and the fraction digits that `Display` for
   * `f64` writes: `-` for negative values, and the fewest fraction digits that
   * write the value exactly (none for whole numbers).  A value without such an
   * expansion is cut after MaxPlaces places.
   */
  function RealParts(x: real): (parts: (string, string, string))
    ensures ValidParts(parts.0, parts.1, parts.2)
    ensures parts.0 == "-" <==> x < 0.0
  {
    var m := Places(x, 0);
    PlaceParts(x < 0.0, ScaleUp(Abs(x), m).Floor, m)
  }

  /** `Display` for `f64`. */
  function RealText(x: real): (r: string)
    ensures |r| > 0 && (r[0] == '-' <==> x < 0.0)
  {
    var (sign, whole, frac) := RealParts(x);
    DecimalText(sign, whole, frac)
  }

  /** Integer digits followed by fraction digits: `a.b` is `ab / 10^|b|`. */
  lemma {:induction false} PointValue(a: string, b: string)
    requires AllDigits(a) && AllDigits(b)
    ensures DigitsValue(a) as real + FracValue(b) == ScaleDown(DigitsValue(a + b) as real, |b|)
    decreases |b|
  {
    if b == [] {
      assert a + b == a;
    } else {
      var c := b[0];
      var a' := a + [c];
      assert a'[..|a'| - 1] == a;
      assert a + b == a' + b[1..];
      PointValue(a', b[1..]);
    }
  }

  /** Scaling down commutes with multiplying by ten. */
  lemma {:induction false} ScaleDownTimesTen(v: real, n: nat)
    ensures ScaleDown(v * 10.0, n) == ScaleDown(v, n) * 10.0
  {
    if n > 0 {
      ScaleDownTimesTen(v, n - 1);
    }
  }

  /** Scaling down undoes scaling up. */
  lemma {:induction false} ScaleDownUp(v: real, n: nat)
    ensures ScaleDown(ScaleUp(v, n), n) == v
  {
    if n > 0 {
      ScaleDownTimesTen(ScaleUp(v, n - 1), n - 1);
      ScaleDownUp(v, n - 1);
    }
  }

  /** Scaling up commutes with negation. */
  lemma {:induction false} ScaleUpNegate(v: real, n: nat)
    ensures ScaleUp(-v, n) == -ScaleUp(v, n)
  {
    if n > 0 {
      ScaleUpNegate(v, n - 1);
    }
  }

  lemma NegatedInteger(y: real)
    requires IsInteger(y)
    ensures IsInteger(-y)
  {
    var z := -y.Floor;
    assert -y == z as real;
    assert (z as real).Floor == z;
  }

  /** A number written with some decimal places keeps them when its sign is dropped. */
  lemma AbsHasPlaces(x: real, n: nat)
    requires HasPlaces(x, n)
    ensures HasPlaces(Abs(x), n)
  {
    if x < 0.0 {
      ScaleUpNegate(x, n);
      NegatedInteger(ScaleUp(x, n));
    }
  }

  /** The digits `Display` writes for a short decimal have exactly its value. */
  lemma RealPartsValue(x: real)
    requires IsShortDecimal(x)
    ensures PartsValue(RealParts(x).0, RealParts(x).1, RealParts(x).2) == x
  {
    var m := Places(x, 0);
    var n := ScaleUp(Abs(x), m).Floor;
    var (sign, whole, frac) := PlaceParts(x < 0.0, n, m);
    assert RealParts(x) == (sign, whole, frac);
    PointValue(whole, frac);
    AbsHasPlaces(x, m);
    ScaleDownUp(Abs(x), m);
    assert Mantissa(whole, frac) == Abs(x);
  }

  /** The text `Display` gives a number is a numeral of shape `[+-]?\d+(\.\d+)?`, and parses back to it. */
  lemma RealTextRoundTrip(x: real)
    requires IsShortDecimal(x)
    ensures IsDecimalText(RealText(x))
    ensures x >= 0.0 ==> IsUnsignedText(RealText(x))
    ensures ParseFloat(RealText(x)) == Some(x)
  {
    var (sign, whole, frac) := RealParts(x);
    DecimalTextShape(sign, whole, frac);
    if x >= 0.0 {
      UnsignedTextShape(whole, frac);
    }
    RealPartsValue(x);
    ParseFloatDecimal(sign, whole, frac);
  }
}
